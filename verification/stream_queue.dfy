/** The reference-counted queue behind the streams (worker/streaming/stream_queue.cpp): many listeners share
    one cache of messages, each through its own FIFO of iterators into that cache.

    The C++ class is modelled three times over: `Queue` and the functions on it say what each critical section
    does to the fields, `StreamQueue` is the class whose methods do it in place, and `World` with `Step`
    is the concurrent system, in which the decrement of unrefMessage (outside the lock) and its erase (inside
    the lock) are two steps that anything may come between.
 */
module StreamQueues {

  type Id = nat
  type Message = string

  /** An iterator into messageCache_. The k-th message ever emplaced has handle k, so a handle names one message
      for the whole run, as a std::list iterator does for the lifetime of its node. */
  type Handle = nat

  const SIZE_MAX: nat := 0xFFFF_FFFF_FFFF_FFFF

  datatype Counted = Counted(msg: Message, refCount: nat)

  datatype Queue = Queue(assignments: map<Id, seq<Handle>>, cache: map<Handle, Counted>, emplaced: nat)

  /** `--` on a std::atomic<std::size_t>: it wraps below zero. */
  function Decremented(count: nat): nat {
    if count == 0 then SIZE_MAX else count - 1
  }

  // ---- What each critical section does -----------------------------------------------------------------

  function Broadcasted(q: Queue, msg: Message): Queue {
    Queue(map id | id in q.assignments :: q.assignments[id] + [q.emplaced],
          q.cache[q.emplaced := Counted(msg, |q.assignments|)],
          q.emplaced + 1)
  }

  /** The message is emplaced before the id is looked up, so an unknown id leaves it in the cache. */
  function Sent(q: Queue, id: Id, msg: Message): Queue {
    Queue(if id in q.assignments then q.assignments[id := q.assignments[id] + [q.emplaced]] else q.assignments,
          q.cache[q.emplaced := Counted(msg, 1)],
          q.emplaced + 1)
  }

  /** `assignments_[id] = {}`: also empties the queue of a listener that is already there. */
  function Inserted(q: Queue, id: Id): Queue {
    q.(assignments := q.assignments[id := []])
  }

  function Removed(q: Queue, id: Id): Queue {
    q.(assignments := q.assignments - {id})
  }

  function Popped(q: Queue, id: Id): Queue
    requires id in q.assignments && q.assignments[id] != []
  {
    q.(assignments := q.assignments[id := q.assignments[id][1..]])
  }

  function Unreferenced(q: Queue, h: Handle): Queue
    requires h in q.cache
  {
    q.(cache := q.cache[h := q.cache[h].(refCount := Decremented(q.cache[h].refCount))])
  }

  function Erased(q: Queue, h: Handle): Queue {
    q.(cache := q.cache - {h})
  }

  // ---- The class ----------------------------------------------------------------------------------------

  class StreamQueue {
    var assignments: map<Id, seq<Handle>>
    var messageCache: map<Handle, Counted>
    var emplaced: nat

    function View(): Queue
      reads this
    {
      Queue(assignments, messageCache, emplaced)
    }

    constructor ()
      ensures View() == Queue(map[], map[], 0)
    {
      assignments, messageCache, emplaced := map[], map[], 0;
    }

    /** The listener must be registered and have something to consume. */
    method PopMessage(retriever: Id) returns (accessor: Handle)
      requires retriever in assignments && assignments[retriever] != []
      modifies this`assignments
      ensures accessor == old(assignments)[retriever][0]
      ensures View() == Popped(old(View()), retriever)
    {
      accessor := assignments[retriever][0];
      assignments := assignments[retriever := assignments[retriever][1..]];
    }

    /** Asking about a listener that is not registered registers it, as insertRetriever would. */
    method ConsumeableCount(id: Id) returns (count: nat)
      modifies this`assignments
      ensures id in old(assignments) ==> View() == old(View()) && count == |old(assignments)[id]|
      ensures id !in old(assignments) ==> View() == Inserted(old(View()), id) && count == 0
    {
      if id !in assignments {
        assignments := assignments[id := []];
      }
      count := |assignments[id]|;
    }

    method BroadcastMessage(msg: Message)
      modifies this
      ensures View() == Broadcasted(old(View()), msg)
    {
      var msgIter := emplaced;
      messageCache := messageCache[msgIter := Counted(msg, |assignments|)];
      emplaced := emplaced + 1;
      var todo := assignments.Keys;
      while todo != {}
        invariant todo <= assignments.Keys == old(assignments).Keys
        invariant forall id :: id in assignments ==>
          assignments[id] == if id in todo then old(assignments)[id] else old(assignments)[id] + [msgIter]
        invariant messageCache == old(messageCache)[msgIter := Counted(msg, |old(assignments)|)]
        invariant emplaced == old(emplaced) + 1
        decreases |todo|
      {
        var key :| key in todo;
        assignments := assignments[key := assignments[key] + [msgIter]];
        todo := todo - {key};
      }
    }

    /** `known` is false when the C++ throws "invalid id". */
    method SendMessage(id: Id, msg: Message) returns (known: bool)
      modifies this
      ensures known == (id in old(assignments))
      ensures View() == Sent(old(View()), id, msg)
    {
      var msgIter := emplaced;
      messageCache := messageCache[msgIter := Counted(msg, 1)];
      emplaced := emplaced + 1;
      if id !in assignments {
        return false;
      }
      assignments := assignments[id := assignments[id] + [msgIter]];
      return true;
    }

    method InsertRetriever(id: Id)
      modifies this`assignments
      ensures View() == Inserted(old(View()), id)
    {
      assignments := assignments[id := []];
    }

    method EraseRetriever(id: Id)
      modifies this`assignments
      ensures View() == Removed(old(View()), id)
    {
      assignments := assignments - {id};
    }

    /** The first half of unrefMessage, outside the lock. */
    method DecrementRef(msgIter: Handle) returns (reachedZero: bool)
      requires msgIter in messageCache
      modifies this`messageCache
      ensures View() == Unreferenced(old(View()), msgIter)
      ensures reachedZero == (messageCache[msgIter].refCount == 0)
    {
      var node := messageCache[msgIter];
      messageCache := messageCache[msgIter := node.(refCount := Decremented(node.refCount))];
      reachedZero := messageCache[msgIter].refCount == 0;
    }

    /** The second half, inside the lock. */
    method EraseMessage(msgIter: Handle)
      requires msgIter in messageCache
      modifies this`messageCache
      ensures View() == Erased(old(View()), msgIter)
    {
      messageCache := messageCache - {msgIter};
    }

    /** Both halves with nothing in between. */
    method UnrefMessage(msgIter: Handle)
      requires msgIter in messageCache
      modifies this`messageCache
      ensures old(messageCache)[msgIter].refCount == 1 ==> View() == Erased(old(View()), msgIter)
      ensures old(messageCache)[msgIter].refCount != 1 ==> View() == Unreferenced(old(View()), msgIter)
    {
      var reachedZero := DecrementRef(msgIter);
      if reachedZero {
        EraseMessage(msgIter);
      }
    }
  }

  // ---- The concurrent system ------------------------------------------------------------------------------

  datatype Event =
    | Broadcast(msg: Message)
    | Send(id: Id, msg: Message)
    | Insert(id: Id)
    | Remove(id: Id)
    | Pop(id: Id)
    | Decrement(h: Handle)
    | Erase(h: Handle)

  /** The queue, what the consumer threads are holding, and a ledger of references that nobody will ever give back.
      - held: popped, not yet decremented
      - dying: decremented to zero by a thread that has not erased it yet
      - discarded: dropped from a queue by removing or re-inserting its listener
      - stranded: sent to an unknown id
      - unheard: broadcast while nobody was registered
   */
  datatype World = World(queue: Queue, held: multiset<Handle>, dying: set<Handle>,
                         discarded: multiset<Handle>, stranded: set<Handle>, unheard: set<Handle>)

  const START := World(Queue(map[], map[], 0), multiset{}, {}, multiset{}, {}, {})

  function QueueOf(q: Queue, id: Id): seq<Handle> {
    if id in q.assignments then q.assignments[id] else []
  }

  /** The protocol of the consume loop: pop only what is there, give back each popped handle once, and erase only
      after having decremented to zero. */
  predicate Enabled(w: World, e: Event) {
    match e
    case Pop(id) => QueueOf(w.queue, id) != []
    case Decrement(h) => h in w.held
    case Erase(h) => h in w.dying
    case _ => true
  }

  /** The event would touch a node that is no longer in the list, or count below zero. */
  predicate Faults(w: World, e: Event) {
    match e
    case Pop(id) => QueueOf(w.queue, id) != [] && QueueOf(w.queue, id)[0] !in w.queue.cache
    case Decrement(h) => h !in w.queue.cache || w.queue.cache[h].refCount == 0
    case Erase(h) => h !in w.queue.cache
    case _ => false
  }

  function Step(w: World, e: Event): World {
    var q := w.queue;
    match e
    case Broadcast(msg) =>
      w.(queue := Broadcasted(q, msg),
         unheard := if q.assignments == map[] then w.unheard + {q.emplaced} else w.unheard)
    case Send(id, msg) =>
      w.(queue := Sent(q, id, msg),
         stranded := if id in q.assignments then w.stranded else w.stranded + {q.emplaced})
    case Insert(id) => w.(queue := Inserted(q, id), discarded := w.discarded + multiset(QueueOf(q, id)))
    case Remove(id) => w.(queue := Removed(q, id), discarded := w.discarded + multiset(QueueOf(q, id)))
    case Pop(id) =>
      if QueueOf(q, id) == [] then w
      else w.(queue := Popped(q, id), held := w.held + multiset{QueueOf(q, id)[0]})
    case Decrement(h) =>
      if h !in q.cache then w
      else w.(queue := Unreferenced(q, h),
              held := w.held - multiset{h},
              dying := if Decremented(q.cache[h].refCount) == 0 then w.dying + {h} else w.dying)
    case Erase(h) => w.(queue := Erased(q, h), dying := w.dying - {h})
  }

  datatype Trace = Begin | Then(before: Trace, event: Event)

  function Run(trace: Trace): World {
    match trace
    case Begin => START
    case Then(before, e) => Step(Run(before), e)
  }

  predicate Valid(trace: Trace) {
    match trace
    case Begin => true
    case Then(before, e) => Valid(before) && Enabled(Run(before), e)
  }

  /** `later` is a continuation of `trace`. */
  predicate Continues(later: Trace, trace: Trace) {
    later == trace || (later.Then? && Continues(later.before, trace))
  }

  // ---- Exact counting -------------------------------------------------------------------------------------

  /** The listeners that still have the message in their queue. */
  function Waiting(q: Queue, h: Handle): set<Id> {
    set id | id in q.assignments && h in q.assignments[id]
  }

  predicate QueuedSomewhere(q: Queue, h: Handle) {
    exists id :: id in q.assignments && h in q.assignments[id]
  }

  predicate NoRepeats(s: seq<Handle>) {
    forall i, j :: 0 <= i < j < |s| ==> s[i] != s[j]
  }

  function References(w: World, h: Handle): nat {
    |Waiting(w.queue, h)| + w.held[h] + w.discarded[h] + if h in w.stranded then 1 else 0
  }

  /** Every handle anybody still has points into the cache, and no queue has the same handle twice. */
  ghost predicate HandlesLive(w: World) {
    && (forall h :: h in w.queue.cache ==> h < w.queue.emplaced)
    && (forall id :: id in w.queue.assignments ==> NoRepeats(w.queue.assignments[id]))
    && (forall id, h :: id in w.queue.assignments && h in w.queue.assignments[id] ==> h in w.queue.cache)
    && (forall h :: h in w.held ==> h in w.queue.cache)
    && (forall h :: h in w.discarded ==> h in w.queue.cache)
    && w.stranded <= w.queue.cache.Keys
  }

  /** The count of each cached message is the number of references to it. It is zero exactly
      when the message is about to be erased or was broadcast to nobody. */
  ghost predicate CountsExact(w: World) {
    && (forall h :: h in w.queue.cache ==> w.queue.cache[h].refCount == References(w, h))
    && (forall h :: h in w.dying || h in w.unheard <==> h in w.queue.cache && w.queue.cache[h].refCount == 0)
    && w.dying !! w.unheard
  }

  ghost predicate Inv(w: World) {
    HandlesLive(w) && CountsExact(w)
  }

  /** Pushing a fresh handle does not change who waits for the others. */
  lemma PushWaits(q: Queue, q': Queue, newest: Handle, h: Handle)
    requires h != newest && q'.assignments.Keys == q.assignments.Keys
    requires forall id :: id in q.assignments ==>
      q'.assignments[id] == q.assignments[id] || q'.assignments[id] == q.assignments[id] + [newest]
    ensures Waiting(q', h) == Waiting(q, h)
  {
  }

  lemma BroadcastKeepsHandles(w: World, msg: Message)
    requires HandlesLive(w)
    ensures HandlesLive(Step(w, Broadcast(msg)))
  {
    assert w.queue.emplaced !in w.queue.cache;
  }

  lemma BroadcastKeepsCounts(w: World, msg: Message)
    requires Inv(w)
    ensures CountsExact(Step(w, Broadcast(msg)))
  {
    var q, w' := w.queue, Step(w, Broadcast(msg));
    assert q.emplaced !in q.cache;
    assert Waiting(w'.queue, q.emplaced) == q.assignments.Keys;
    assert References(w', q.emplaced) == |q.assignments|;
    forall h | h in q.cache
      ensures References(w', h) == References(w, h)
    {
      PushWaits(q, w'.queue, q.emplaced, h);
    }
  }

  lemma SendKeepsHandles(w: World, id: Id, msg: Message)
    requires HandlesLive(w)
    ensures HandlesLive(Step(w, Send(id, msg)))
  {
    var q, q' := w.queue, Step(w, Send(id, msg)).queue;
    if id in q.assignments {
      assert q'.assignments[id] == q.assignments[id] + [q.emplaced];
      assert q.emplaced !in q.cache;
      assert q.emplaced !in q.assignments[id];
      assert NoRepeats(q'.assignments[id]);
    }
  }

  lemma SendKeepsCounts(w: World, id: Id, msg: Message)
    requires Inv(w)
    ensures CountsExact(Step(w, Send(id, msg)))
  {
    var q, w' := w.queue, Step(w, Send(id, msg));
    assert q.emplaced !in q.cache;
    assert Waiting(w'.queue, q.emplaced) == if id in q.assignments then {id} else {};
    forall h | h in q.cache
      ensures References(w', h) == References(w, h)
    {
      PushWaits(q, w'.queue, q.emplaced, h);
    }
    assert References(w', q.emplaced) == 1;
  }

  /** Dropping a whole queue moves its handles from `Waiting` to `discarded`, one each. */
  lemma DropKeeps(w: World, id: Id, e: Event)
    requires Inv(w) && (e == Insert(id) || e == Remove(id))
    ensures Inv(Step(w, e))
  {
    var q, w' := w.queue, Step(w, e);
    forall h | h in q.cache
      ensures References(w', h) == References(w, h)
    {
      DropMoves(q, w'.queue, id, h);
    }
  }

  lemma DropMoves(q: Queue, q': Queue, id: Id, h: Handle)
    requires NoRepeats(QueueOf(q, id)) && QueueOf(q', id) == []
    requires q'.assignments - {id} == q.assignments - {id}
    ensures |Waiting(q, h)| == |Waiting(q', h)| + multiset(QueueOf(q, id))[h]
  {
    OccursAtMostOnce(QueueOf(q, id), h);
    forall k | k != id
      ensures k in Waiting(q', h) <==> k in Waiting(q, h)
    {
      assert k in q'.assignments - {id} <==> k in q.assignments - {id};
      assert k in q.assignments ==> (q'.assignments - {id})[k] == (q.assignments - {id})[k];
    }
    assert Waiting(q', h) == Waiting(q, h) - {id};
  }

  lemma {:induction false} OccursAtMostOnce(s: seq<Handle>, h: Handle)
    requires NoRepeats(s)
    ensures multiset(s)[h] == if h in s then 1 else 0
  {
    if s != [] {
      assert s == [s[0]] + s[1..];
      OccursAtMostOnce(s[1..], h);
    }
  }

  lemma PopKeeps(w: World, id: Id)
    requires Inv(w) && Enabled(w, Pop(id))
    ensures Inv(Step(w, Pop(id)))
  {
    var w' := Step(w, Pop(id));
    var front := QueueOf(w.queue, id)[0];
    assert QueueOf(w.queue, id) == [front] + QueueOf(w'.queue, id);
    forall h | h in w.queue.cache
      ensures References(w', h) == References(w, h)
    {
      assert Waiting(w'.queue, h) == if h == front then Waiting(w.queue, h) - {id} else Waiting(w.queue, h);
      assert id in Waiting(w.queue, front);
    }
  }

  lemma DecrementKeeps(w: World, h: Handle)
    requires Inv(w) && h in w.held
    ensures !Faults(w, Decrement(h)) && Inv(Step(w, Decrement(h)))
  {
    var w' := Step(w, Decrement(h));
    forall k | k in w.queue.cache
      ensures References(w', k) == References(w, k) - if k == h then 1 else 0
    {
      assert Waiting(w'.queue, k) == Waiting(w.queue, k);
    }
  }

  lemma NoneLeftAtZero(w: World, h: Handle)
    requires Inv(w) && h in w.queue.cache && w.queue.cache[h].refCount == 0
    ensures h !in w.held && h !in w.discarded && h !in w.stranded && !QueuedSomewhere(w.queue, h)
  {
    assert References(w, h) == 0;
    assert Waiting(w.queue, h) == {};
    assert forall id :: id in w.queue.assignments && h in w.queue.assignments[id] ==> id in Waiting(w.queue, h);
  }

  lemma EraseKeeps(w: World, h: Handle)
    requires Inv(w) && h in w.dying
    ensures !Faults(w, Erase(h)) && Inv(Step(w, Erase(h)))
  {
    var w' := Step(w, Erase(h));
    NoneLeftAtZero(w, h);
    forall k | k in w'.queue.cache
      ensures References(w', k) == References(w, k)
    {
      assert Waiting(w'.queue, k) == Waiting(w.queue, k);
    }
  }

  lemma {:induction false} StepKeeps(w: World, e: Event)
    requires Inv(w) && Enabled(w, e)
    ensures Inv(Step(w, e)) && !Faults(w, e)
  {
    match e
    case Broadcast(msg) => BroadcastKeepsHandles(w, msg); BroadcastKeepsCounts(w, msg);
    case Send(id, msg) => SendKeepsHandles(w, id, msg); SendKeepsCounts(w, id, msg);
    case Insert(id) => DropKeeps(w, id, e);
    case Remove(id) => DropKeeps(w, id, e);
    case Pop(id) => PopKeeps(w, id);
    case Decrement(h) => DecrementKeeps(w, h);
    case Erase(h) => EraseKeeps(w, h);
  }

  /** In every reachable state every count is exact and every handle still around is live. */
  lemma {:induction false} ReachableInv(trace: Trace)
    requires Valid(trace)
    ensures Inv(Run(trace))
  {
    match trace
    case Begin =>
    case Then(before, e) =>
      ReachableInv(before);
      StepKeeps(Run(before), e);
  }

  /** No consumer that follows the protocol ever touches an erased node or drives a count below zero,
      whatever the other threads did in between. */
  lemma {:induction false} NeverFaults(trace: Trace, e: Event)
    requires Valid(trace) && Enabled(Run(trace), e)
    ensures !Faults(Run(trace), e)
  {
    ReachableInv(trace);
    StepKeeps(Run(trace), e);
  }

  // ---- Reclamation ------------------------------------------------------------------------------------------

  /** Some reference to it was lost: nobody is left who would decrement it to zero. */
  predicate Leaked(w: World, h: Handle) {
    h in w.discarded || h in w.stranded || h in w.unheard
  }

  /** A message is in the cache exactly when it is queued, held, about to be erased, or leaked. */
  lemma {:induction false} CachedExactly(trace: Trace, h: Handle)
    requires Valid(trace)
    ensures var w := Run(trace);
      h in w.queue.cache <==> QueuedSomewhere(w.queue, h) || h in w.held || h in w.dying || Leaked(w, h)
  {
    ReachableInv(trace);
    var w := Run(trace);
    if h in w.queue.cache && !(h in w.held || h in w.dying || Leaked(w, h)) {
      assert |Waiting(w.queue, h)| > 0;
      var id :| id in Waiting(w.queue, h);
    }
  }

  /** Nothing that is still queued or held by anyone is erased. */
  lemma {:induction false} EraseOnlyUnreferenced(trace: Trace, h: Handle)
    requires Valid(trace) && h in Run(trace).dying
    ensures var w := Run(trace);
      h in w.queue.cache && !QueuedSomewhere(w.queue, h) && h !in w.held && !Leaked(w, h)
  {
    ReachableInv(trace);
    NoneLeftAtZero(Run(trace), h);
  }

  /** The event loses no reference: it neither drops a non-empty queue nor addresses a message to nobody. */
  predicate LosesNothing(w: World, e: Event) {
    match e
    case Broadcast(_) => w.queue.assignments != map[]
    case Send(id, _) => id in w.queue.assignments
    case Insert(id) => QueueOf(w.queue, id) == []
    case Remove(id) => QueueOf(w.queue, id) == []
    case _ => true
  }

  predicate Tidy(trace: Trace) {
    match trace
    case Begin => true
    case Then(before, e) => Tidy(before) && LosesNothing(Run(before), e)
  }

  /** In a run that loses no reference, the cache holds exactly what somebody still has,
      apart from messages whose erase step is due. */
  lemma {:induction false} TidyRunsReclaim(trace: Trace, h: Handle)
    requires Valid(trace) && Tidy(trace)
    ensures var w := Run(trace);
      h in w.queue.cache && h !in w.dying <==> QueuedSomewhere(w.queue, h) || h in w.held
  {
    CachedExactly(trace, h);
    TidyNeverLeaks(trace, h);
    if h in Run(trace).dying {
      EraseOnlyUnreferenced(trace, h);
    }
  }

  lemma {:induction false} TidyNeverLeaks(trace: Trace, h: Handle)
    requires Tidy(trace)
    ensures !Leaked(Run(trace), h)
  {
    match trace
    case Begin =>
    case Then(before, e) =>
      TidyNeverLeaks(before, h);
      StepLeaksOnlyLosses(Run(before), e, h);
  }

  lemma StepLeaksOnlyLosses(w: World, e: Event, h: Handle)
    requires LosesNothing(w, e)
    ensures Leaked(Step(w, e), h) == Leaked(w, h)
  {
  }

  /** Every event that is not so loses a reference to something. */
  lemma LossLeaks(w: World, e: Event) returns (h: Handle)
    requires Enabled(w, e) && !LosesNothing(w, e)
    ensures Leaked(Step(w, e), h)
  {
    match e
    case Broadcast(_) => h := w.queue.emplaced;
    case Send(_, _) => h := w.queue.emplaced;
    case Insert(id) => h := QueueOf(w.queue, id)[0];
    case Remove(id) => h := QueueOf(w.queue, id)[0];
  }

  /** Exactly the tidy runs leak nothing. */
  lemma {:induction false} TidyIffNothingLeaks(trace: Trace)
    requires Valid(trace)
    ensures Tidy(trace) <==> LeaksNothing(Run(trace))
  {
    if Tidy(trace) {
      TidyLeaksNothing(trace);
    } else {
      var h := UntidyLeaks(trace);
    }
  }

  ghost predicate LeaksNothing(w: World) {
    forall h :: !Leaked(w, h)
  }

  lemma {:induction false} TidyLeaksNothing(trace: Trace)
    requires Tidy(trace)
    ensures LeaksNothing(Run(trace))
  {
    forall h
      ensures !Leaked(Run(trace), h)
    {
      TidyNeverLeaks(trace, h);
    }
  }

  lemma {:induction false} UntidyLeaks(trace: Trace) returns (h: Handle)
    requires Valid(trace) && !Tidy(trace)
    ensures Leaked(Run(trace), h)
  {
    var w := Run(trace.before);
    if Tidy(trace.before) {
      h := LossLeaks(w, trace.event);
    } else {
      h := UntidyLeaks(trace.before);
      ReachableInv(trace.before);
      StepForever(w, trace.event, h);
    }
  }

  /** The shortest run that leaks: a message to a listener that is not registered, which nobody ever gets. */
  lemma {:induction false} SentToNobody(msg: Message, later: Trace)
    requires Valid(later) && Continues(later, Then(Begin, Send(1, msg)))
    ensures !Tidy(later) && 0 in Run(later).queue.cache
  {
    var sent := Then(Begin, Send(1, msg));
    assert 0 in Run(sent).stranded;
    Forever(sent, later, 0);
    LeakedForever(sent, later, 0);
    TidyIffNothingLeaks(later);
  }

  lemma StepForever(w: World, e: Event, h: Handle)
    requires Inv(w) && Enabled(w, e)
    ensures w.queue.emplaced <= Step(w, e).queue.emplaced
    ensures h < w.queue.emplaced && h !in w.queue.cache ==> h !in Step(w, e).queue.cache
    ensures Leaked(w, h) ==> Leaked(Step(w, e), h)
  {
    match e
    case Decrement(k) => assert k in w.queue.cache;
    case _ =>
  }

  /** However the run goes on, what was erased stays erased and what leaked stays leaked. */
  lemma {:induction false} Forever(trace: Trace, later: Trace, h: Handle)
    requires Valid(later) && Continues(later, trace)
    ensures Valid(trace)
    ensures Run(trace).queue.emplaced <= Run(later).queue.emplaced
    ensures h < Run(trace).queue.emplaced && h !in Run(trace).queue.cache ==> h !in Run(later).queue.cache
    ensures Leaked(Run(trace), h) ==> Leaked(Run(later), h)
  {
    if later != trace {
      Forever(trace, later.before, h);
      ReachableInv(later.before);
      StepForever(Run(later.before), later.event, h);
    }
  }

  /** A leaked message is never erased, however the run goes on. */
  lemma {:induction false} LeakedForever(trace: Trace, later: Trace, h: Handle)
    requires Valid(later) && Continues(later, trace) && Leaked(Run(trace), h)
    ensures h in Run(later).queue.cache
  {
    Forever(trace, later, h);
    CachedExactly(later, h);
  }

  lemma {:induction false} ContinuesOn(last: Trace, later: Trace, trace: Trace)
    requires Continues(last, later) && Continues(later, trace)
    ensures Continues(last, trace)
  {
    if last != later {
      ContinuesOn(last.before, later, trace);
    }
  }

  /** How far a message is from being erased: it has to be popped by each listener and given back each time. */
  function ToGo(w: World, h: Handle): nat {
    2 * |Waiting(w.queue, h)| + w.held[h]
  }

  lemma PopMoves(w: World, id: Id, h: Handle)
    requires QueueOf(w.queue, id) != [] && NoRepeats(QueueOf(w.queue, id))
    ensures var w', s := Step(w, Pop(id)), QueueOf(w.queue, id);
      && QueueOf(w'.queue, id) == s[1..] && w'.queue.cache == w.queue.cache
      && (Leaked(w', h) <==> Leaked(w, h)) && (h in w'.dying <==> h in w.dying)
      && ToGo(w', h) == ToGo(w, h) - (if s[0] == h then 1 else 0)
      && (h in s ==> s[0] == h || h in s[1..])
  {
    var w', s := Step(w, Pop(id)), QueueOf(w.queue, id);
    if s[0] == h {
      assert Waiting(w'.queue, h) == Waiting(w.queue, h) - {id};
      assert id in Waiting(w.queue, h);
    } else {
      assert s == [s[0]] + s[1..];
      assert Waiting(w'.queue, h) == Waiting(w.queue, h);
    }
  }

  lemma {:induction false} QueuedIsLive(trace: Trace, id: Id, h: Handle)
    requires Valid(trace) && h in QueueOf(Run(trace).queue, id)
    ensures NoRepeats(QueueOf(Run(trace).queue, id)) && h in Run(trace).queue.cache
  {
    ReachableInv(trace);
  }

  /** The listener pops on until it has the message. */
  lemma {:induction false} PopOn(trace: Trace, id: Id, h: Handle) returns (later: Trace)
    requires Valid(trace) && h in QueueOf(Run(trace).queue, id) && !Leaked(Run(trace), h)
    ensures Valid(later) && Continues(later, trace) && !Leaked(Run(later), h)
    ensures h in Run(later).queue.cache && ToGo(Run(later), h) < ToGo(Run(trace), h)
    decreases |QueueOf(Run(trace).queue, id)|
  {
    QueuedIsLive(trace, id, h);
    PopMoves(Run(trace), id, h);
    var popped := Then(trace, Pop(id));
    if QueueOf(Run(trace).queue, id)[0] == h {
      later := popped;
    } else {
      later := PopOn(popped, id, h);
      ContinuesOn(later, popped, trace);
    }
  }

  /** What is cached and not leaked can be erased: there is a continuation that does it. */
  lemma {:induction false} Reclaimed(trace: Trace, h: Handle) returns (later: Trace)
    requires Valid(trace) && h in Run(trace).queue.cache && !Leaked(Run(trace), h)
    ensures Valid(later) && Continues(later, trace) && h !in Run(later).queue.cache
    decreases ToGo(Run(trace), h)
  {
    var w := Run(trace);
    CachedExactly(trace, h);
    if h in w.dying {
      later := Then(trace, Erase(h));
    } else {
      var next: Trace;
      if h in w.held {
        next := Then(trace, Decrement(h));
        assert Waiting(Run(next).queue, h) == Waiting(w.queue, h);
      } else {
        var id :| id in w.queue.assignments && h in w.queue.assignments[id];
        next := PopOn(trace, id, h);
      }
      later := Reclaimed(next, h);
      ContinuesOn(later, next, trace);
    }
  }

  /** Leaked messages are exactly those that no continuation ever gets out of the cache. */
  lemma {:induction false} LeakedIffNeverErased(trace: Trace, h: Handle)
    requires Valid(trace) && h in Run(trace).queue.cache
    ensures Leaked(Run(trace), h) <==>
      forall later :: Valid(later) && Continues(later, trace) ==> h in Run(later).queue.cache
  {
    if Leaked(Run(trace), h) {
      forall later | Valid(later) && Continues(later, trace)
        ensures h in Run(later).queue.cache
      {
        LeakedForever(trace, later, h);
      }
    } else {
      var later := Reclaimed(trace, h);
    }
  }

  /** A message leaves the cache at most once: after its erase step no continuation can erase or release it again. */
  lemma {:induction false} ErasedOnce(trace: Trace, later: Trace, h: Handle)
    requires Valid(later) && trace.Then? && trace.event == Erase(h) && Continues(later, trace)
    ensures h in Run(trace.before).queue.cache && h !in Run(later).queue.cache
    ensures !Enabled(Run(later), Erase(h)) && !Enabled(Run(later), Decrement(h))
  {
    Forever(trace, later, h);
    ReachableInv(trace.before);
    ReachableInv(later);
  }

  // ---- Who listens --------------------------------------------------------------------------------------------

  /** The last thing that happened to the listener's registration is an insertion, read off the run alone. */
  predicate Registered(trace: Trace, id: Id) {
    match trace
    case Begin => false
    case Then(before, e) =>
      if e == Insert(id) then true else if e == Remove(id) then false else Registered(before, id)
  }

  /** Exactly the listeners inserted and not removed since have a queue. */
  lemma {:induction false} QueueIffRegistered(trace: Trace, id: Id)
    ensures id in Run(trace).queue.assignments <==> Registered(trace, id)
  {
    if trace.Then? {
      QueueIffRegistered(trace.before, id);
      StepRegisters(Run(trace.before), trace.event, id);
    }
  }

  lemma {:induction false} StepRegisters(w: World, e: Event, id: Id)
    ensures id in Step(w, e).queue.assignments <==>
      e == Insert(id) || (e != Remove(id) && id in w.queue.assignments)
  {
  }

  /** A broadcast stands at the end of the queue of everybody who is registered, as a new handle with its message. */
  lemma {:induction false} BroadcastReachesAll(trace: Trace, msg: Message, id: Id)
    requires Valid(trace) && Registered(trace, id)
    ensures var w := Run(Then(trace, Broadcast(msg)));
      && id in w.queue.assignments && w.queue.assignments[id] != []
      && var h := w.queue.assignments[id][|w.queue.assignments[id]| - 1];
         h in w.queue.cache && w.queue.cache[h].msg == msg && h !in Run(trace).queue.cache
  {
    QueueIffRegistered(trace, id);
    ReachableInv(trace);
  }

  // ---- Per-listener FIFO --------------------------------------------------------------------------------------

  /** What one event adds to the back of a listener's queue. */
  function Arriving(e: Event, id: Id): seq<Message> {
    match e
    case Broadcast(msg) => [msg]
    case Send(to, msg) => if to == id then [msg] else []
    case _ => []
  }

  /** What was addressed to a listener since its last insertion, read off the run alone. */
  function Addressed(trace: Trace, id: Id): seq<Message> {
    match trace
    case Begin => []
    case Then(before, e) => if e == Insert(id) then [] else Addressed(before, id) + Arriving(e, id)
  }

  function MessageOf(q: Queue, h: Handle): Message {
    if h in q.cache then q.cache[h].msg else ""
  }

  function MessagesOf(q: Queue, handles: seq<Handle>): (msgs: seq<Message>)
    ensures |msgs| == |handles|
    ensures forall i :: 0 <= i < |handles| ==> msgs[i] == MessageOf(q, handles[i])
  {
    seq(|handles|, i requires 0 <= i < |handles| => MessageOf(q, handles[i]))
  }

  /** The messages behind the handles the listener popped since its last insertion. */
  function Consumed(trace: Trace, id: Id): seq<Message> {
    match trace
    case Begin => []
    case Then(before, e) =>
      var q := Run(before).queue;
      if e == Insert(id) then []
      else if e == Pop(id) && QueueOf(q, id) != [] then Consumed(before, id) + [MessageOf(q, QueueOf(q, id)[0])]
      else Consumed(before, id)
  }

  /** Popped so far followed by still queued is exactly what was addressed to the listener, in order. */
  lemma {:induction false} PerListenerFifo(trace: Trace, id: Id)
    requires Valid(trace) && Registered(trace, id)
    ensures Consumed(trace, id) + MessagesOf(Run(trace).queue, QueueOf(Run(trace).queue, id)) == Addressed(trace, id)
  {
    match trace
    case Begin =>
    case Then(before, e) =>
      if e != Insert(id) {
        QueueIffRegistered(before, id);
        QueueIffRegistered(trace, id);
        PerListenerFifo(before, id);
        QueueMoves(before, e, id);
        var was := MessagesOf(Run(before).queue, QueueOf(Run(before).queue, id));
        if e == Pop(id) {
          HeadMovesOver(Consumed(before, id), was, Addressed(before, id));
        } else {
          BothGrow(Consumed(before, id), was, Addressed(before, id), Arriving(e, id));
        }
      }
  }

  lemma HeadMovesOver(done: seq<Message>, todo: seq<Message>, all: seq<Message>)
    requires done + todo == all && todo != []
    ensures done + [todo[0]] + todo[1..] == all && (todo + [])[1..] == todo[1..]
  {
    assert todo == [todo[0]] + todo[1..];
  }

  lemma BothGrow(done: seq<Message>, todo: seq<Message>, all: seq<Message>, more: seq<Message>)
    requires done + todo == all
    ensures done + (todo + more) == all + more
  {
  }

  /** One event seen by one listener: only a push or its own pop changes what it has queued. */
  lemma {:induction false} QueueMoves(trace: Trace, e: Event, id: Id)
    requires Valid(Then(trace, e)) && e != Insert(id) && id in Run(trace).queue.assignments
    requires id in Step(Run(trace), e).queue.assignments
    ensures var q, q' := Run(trace).queue, Step(Run(trace), e).queue;
      var was := MessagesOf(q, QueueOf(q, id)) + Arriving(e, id);
      MessagesOf(q', QueueOf(q', id)) == if e == Pop(id) then was[1..] else was
  {
    HandlesMove(Run(trace), e, id);
    TextsKept(trace, e, id);
  }

  lemma HandlesMove(w: World, e: Event, id: Id)
    requires Enabled(w, e) && e != Insert(id)
    requires id in w.queue.assignments && id in Step(w, e).queue.assignments
    ensures var q, q' := w.queue, Step(w, e).queue;
      var s, s' := QueueOf(q, id), QueueOf(q', id);
      && s' == (if e == Pop(id) then s[1..] else if Arriving(e, id) == [] then s else s + [q.emplaced])
      && (Arriving(e, id) != [] ==> Arriving(e, id) == [MessageOf(q', q.emplaced)])
  {
  }

  lemma TextsKept(trace: Trace, e: Event, id: Id)
    requires Valid(Then(trace, e))
    ensures var q, q' := Run(trace).queue, Step(Run(trace), e).queue;
      forall h :: h in QueueOf(q, id) && h in QueueOf(q', id) ==> MessageOf(q', h) == MessageOf(q, h)
  {
    ReachableInv(trace);
    ReachableInv(Then(trace, e));
    CachedTextKept(Run(trace), e);
  }

  lemma CachedTextKept(w: World, e: Event)
    requires HandlesLive(w)
    ensures var q, q' := w.queue, Step(w, e).queue;
      forall h :: h in q.cache && h in q'.cache ==> MessageOf(q', h) == MessageOf(q, h)
  {
  }
}
