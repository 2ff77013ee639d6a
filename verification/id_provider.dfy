/** The allocator of listener ids (worker/streaming/id.cpp): hands out the smallest id not in use. */
module IdProviders {

  /** unsigned int */
  const MAX_ID: nat := 0xFFFF_FFFF

  datatype Provider = Provider(increment: nat, freeIds: set<nat>)

  ghost predicate IsLeast(id: nat, ids: set<nat>) {
    id in ids && forall other :: other in ids ==> id <= other
  }

  lemma {:induction false} LeastExists(ids: set<nat>)
    requires ids != {}
    ensures exists least :: IsLeast(least, ids)
  {
    var id :| id in ids;
    if ids == {id} {
      assert IsLeast(id, ids);
    } else {
      LeastExists(ids - {id});
      var other :| IsLeast(other, ids - {id});
      assert forall x :: x in ids ==> x == id || x in ids - {id};
      assert IsLeast(if other < id then other else id, ids);
    }
  }

  /** `*freeIds_.begin()` of a std::set. */
  ghost function Least(ids: set<nat>): (least: nat)
    requires ids != {}
    ensures IsLeast(least, ids)
  {
    LeastExists(ids);
    var least :| IsLeast(least, ids);
    least
  }

  /** acquireId has no id left: it throws. */
  predicate Exhausted(p: Provider) {
    p.freeIds == {} && p.increment == MAX_ID
  }

  ghost function NextId(p: Provider): nat
  {
    if p.freeIds == {} then p.increment + 1 else Least(p.freeIds)
  }

  ghost function Acquired(p: Provider): Provider
  {
    if p.freeIds == {} then p.(increment := p.increment + 1) else p.(freeIds := p.freeIds - {Least(p.freeIds)})
  }

  function Freed(p: Provider, id: nat): Provider {
    p.(freeIds := p.freeIds + {id})
  }

  /** A std::size_t difference. */
  function Wrapped(difference: int): nat {
    difference % 0x1_0000_0000_0000_0000
  }

  lemma NoWrap(n: nat)
    requires n <= MAX_ID
    ensures Wrapped(n) == n
  {
  }

  class IdProvider {
    var increment: nat
    var freeIds: set<nat>

    function View(): Provider
      reads this
    {
      Provider(increment, freeIds)
    }

    constructor ()
      ensures View() == Provider(0, {})
    {
      increment, freeIds := 0, {};
    }

    /** `ran` is false when the C++ throws "ran out of ids". */
    method AcquireId() returns (id: nat, ran: bool)
      modifies this
      ensures ran == !Exhausted(old(View()))
      ensures ran ==> id == NextId(old(View())) && View() == Acquired(old(View()))
      ensures !ran ==> View() == old(View())
    {
      if freeIds == {} {
        if increment == MAX_ID {
          return 0, false;
        }
        increment := increment + 1;
        return increment, true;
      }
      LeastExists(freeIds);
      id :| id in freeIds && forall other :: other in freeIds ==> id <= other;
      freeIds := freeIds - {id};
      ran := true;
    }

    method FreeId(id: nat)
      modifies this`freeIds
      ensures View() == Freed(old(View()), id)
    {
      freeIds := freeIds + {id};
    }

    /** The number of ids issued that are not free. It would wrap if more ids were free than ever issued. */
    method UsedIdCount() returns (count: nat)
      ensures count == Wrapped(increment - |freeIds|)
      ensures freeIds <= UpTo(increment) && increment <= MAX_ID ==> count == |UpTo(increment) - freeIds|
    {
      count := Wrapped(increment - |freeIds|);
      if freeIds <= UpTo(increment) && increment <= MAX_ID {
        UpToSize(increment);
        assert |UpTo(increment)| == |UpTo(increment) - freeIds| + |freeIds|;
        NoWrap(increment - |freeIds|);
      }
    }
  }

  // ---- Runs -----------------------------------------------------------------------------------------------------

  /** Holder n is whoever made acquire number n, counting from 0 the acquires that did not throw. */
  type Holder = nat

  /** `Free` is a call of freeId by a holder, with any id; what it holds ends by that only if the id is its own. */
  datatype Event = Acquire | Free(holder: Holder, id: nat)

  datatype Trace = Begin | Then(before: Trace, event: Event)

  /** The provider, what each holder holds, and the number of acquires. An acquire that throws changes nothing. */
  datatype World = World(provider: Provider, held: map<Holder, nat>, acquired: nat)

  ghost function Step(w: World, e: Event): World {
    match e
    case Acquire =>
      if Exhausted(w.provider) then w
      else World(Acquired(w.provider), w.held[w.acquired := NextId(w.provider)], w.acquired + 1)
    case Free(holder, id) =>
      w.(provider := Freed(w.provider, id), held := if Holds(w, holder, id) then w.held - {holder} else w.held)
  }

  ghost function Run(trace: Trace): World {
    match trace
    case Begin => World(Provider(0, {}), map[], 0)
    case Then(before, e) => Step(Run(before), e)
  }

  predicate Holds(w: World, holder: Holder, id: nat) {
    holder in w.held && w.held[holder] == id
  }

  ghost predicate HeldByAnother(w: World, holder: Holder, id: nat) {
    exists other :: other != holder && Holds(w, other, id)
  }

  /** A holder frees what it holds. */
  predicate Allowed(w: World, e: Event) {
    e.Free? ==> Holds(w, e.holder, e.id)
  }

  /** `later` goes on from `trace`, and in what it adds holders free only what they hold. */
  ghost predicate Follows(later: Trace, trace: Trace) {
    later == trace || (later.Then? && Follows(later.before, trace) && Allowed(Run(later.before), later.event))
  }

  ghost predicate Valid(trace: Trace) {
    Follows(trace, Begin)
  }

  /** The largest number of ids ever held at once. */
  ghost function Peak(trace: Trace): nat {
    match trace
    case Begin => 0
    case Then(before, _) => if |Run(trace).held| > Peak(before) then |Run(trace).held| else Peak(before)
  }

  ghost function UpTo(n: nat): (ids: set<nat>)
    ensures forall id :: id in ids <==> 1 <= id <= n
  {
    if n == 0 then {} else UpTo(n - 1) + {n}
  }

  lemma {:induction false} UpToSize(n: nat)
    ensures |UpTo(n)| == n
  {
    if n > 0 {
      UpToSize(n - 1);
      assert n !in UpTo(n - 1) && UpTo(n) == UpTo(n - 1) + {n};
    }
  }

  ghost predicate NoneTwice(w: World) {
    forall h, k :: h in w.held && k in w.held && h != k ==> w.held[h] != w.held[k]
  }

  /** Ids held and free ids together are exactly the ids issued so far, none is both, and none is held twice. */
  ghost predicate Partition(w: World) {
    && NoneTwice(w)
    && w.held.Values + w.provider.freeIds == UpTo(w.provider.increment) && w.held.Values !! w.provider.freeIds
  }

  /** The number of the next acquire is new. */
  lemma {:induction false} HoldersAreNumbered(trace: Trace)
    ensures forall h :: h in Run(trace).held ==> h < Run(trace).acquired
  {
    if trace.Then? {
      HoldersAreNumbered(trace.before);
    }
  }

  lemma {:induction false} OutstandingAndFree(trace: Trace)
    requires Valid(trace)
    ensures Partition(Run(trace)) && Run(trace).provider.increment <= 0xFFFF_FFFF
  {
    match trace
    case Begin =>
    case Then(before, e) =>
      OutstandingAndFree(before);
      HoldersAreNumbered(before);
      StepKeepsPartition(Run(before), e);
  }

  lemma StepKeepsPartition(w: World, e: Event)
    requires Partition(w) && Allowed(w, e) && forall h :: h in w.held ==> h < w.acquired
    ensures Partition(Step(w, e))
  {
    var w' := Step(w, e);
    match e
    case Acquire =>
      if !Exhausted(w.provider) {
        HandsOut(w.held, w.acquired, NextId(w.provider));
      }
    case Free(holder, id) => Releases(w.held, holder);
  }

  lemma HandsOut(held: map<Holder, nat>, holder: Holder, id: nat)
    requires holder !in held
    ensures held[holder := id].Values == held.Values + {id}
  {
    assert forall h :: h in held ==> held[holder := id][h] == held[h];
    assert held[holder := id][holder] == id;
  }

  lemma Releases(held: map<Holder, nat>, holder: Holder)
    requires holder in held && forall h, k :: h in held && k in held && h != k ==> held[h] != held[k]
    ensures (held - {holder}).Values == held.Values - {held[holder]}
  {
    assert forall h :: h in held && h != holder ==> (held - {holder})[h] == held[h];
  }

  /** Where none is held twice there are as many ids as holders. */
  lemma {:induction false} AsManyIds(held: map<Holder, nat>)
    requires forall h, k :: h in held && k in held && h != k ==> held[h] != held[k]
    ensures |held.Values| == |held|
    decreases |held|
  {
    if held != map[] {
      var holder :| holder in held;
      AsManyIds(held - {holder});
      Releases(held, holder);
    }
  }

  lemma CountsAddUp(w: World)
    requires Partition(w)
    ensures |w.held| == |w.held.Values| == w.provider.increment - |w.provider.freeIds|
  {
    UpToSize(w.provider.increment);
    AsManyIds(w.held);
    assert |w.held.Values + w.provider.freeIds| == |w.held.Values| + |w.provider.freeIds|;
  }

  /** acquireId returns the smallest id not in use, and fails only when all 2^32 - 1 ids are outstanding. */
  lemma AcquiresSmallestUnused(trace: Trace)
    requires Valid(trace)
    ensures var w := Run(trace);
      && (Exhausted(w.provider) <==> |w.held| == 0xFFFF_FFFF)
      && (!Exhausted(w.provider) ==>
            && 1 <= NextId(w.provider) && NextId(w.provider) !in w.held.Values
            && forall id :: 1 <= id < NextId(w.provider) ==> id in w.held.Values)
  {
    OutstandingAndFree(trace);
    CountsAddUp(Run(trace));
  }

  /** usedIdCount reports the number of ids outstanding: its subtraction never wraps. */
  lemma {:induction false} UsedIsOutstanding(trace: Trace)
    requires Valid(trace)
    ensures var w := Run(trace);
      Wrapped(w.provider.increment - |w.provider.freeIds|) == |w.held| == |w.held.Values|
  {
    OutstandingAndFree(trace);
    CountsAddUp(Run(trace));
    NoWrap(|Run(trace).held|);
  }

  /** The counter never runs ahead of need: it is the high-water mark of ids in use at one time. */
  lemma {:induction false} IncrementIsPeak(trace: Trace)
    requires Valid(trace)
    ensures Run(trace).provider.increment == Peak(trace)
  {
    match trace
    case Begin =>
    case Then(before, e) =>
      IncrementIsPeak(before);
      OutstandingAndFree(before);
      OutstandingAndFree(trace);
      CounterFollowsUse(Run(before), e);
  }

  lemma CounterFollowsUse(w: World, e: Event)
    requires Partition(w) && Partition(Step(w, e))
    ensures var w' := Step(w, e);
      w'.provider.increment == if |w'.held| > w.provider.increment then |w'.held| else w.provider.increment
  {
    CountsAddUp(w);
    CountsAddUp(Step(w, e));
  }

  // ---- Freeing what one does not hold -----------------------------------------------------------------------------

  /** Whoever calls freeId, with whatever id, keeps the partition exactly when the id has been issued and nobody else
      holds it. Freeing one's own id again is such a call only until somebody else has acquired it. */
  lemma FreeingIsSafeIff(trace: Trace, holder: Holder, id: nat)
    requires Valid(trace)
    ensures Partition(Run(Then(trace, Free(holder, id)))) <==>
      1 <= id <= Run(trace).provider.increment && !HeldByAnother(Run(trace), holder, id)
  {
    OutstandingAndFree(trace);
    LeftHeld(Run(trace), holder, id);
  }

  /** Of the holders, only the caller can stop holding, and nobody else holds the id unless somebody else did. */
  lemma LeftHeld(w: World, holder: Holder, id: nat)
    requires NoneTwice(w)
    ensures var w' := Step(w, Free(holder, id));
      && NoneTwice(w')
      && w'.held.Values == (if HeldByAnother(w, holder, id) then w.held.Values else w.held.Values - {id})
      && (id in w'.held.Values <==> HeldByAnother(w, holder, id))
  {
    if Holds(w, holder, id) {
      Releases(w.held, holder);
    } else if id in w.held.Values {
      var other :| other in w.held && w.held[other] == id;
      assert Holds(w, other, id);
    }
  }

  /** What is enough for no id ever to be held twice; unlike a partition it lets 0 be free or held. */
  ghost predicate Sound(w: World) {
    && NoneTwice(w) && (forall h :: h in w.held ==> h < w.acquired)
    && (forall h :: h in w.held ==> w.held[h] <= w.provider.increment && w.held[h] !in w.provider.freeIds)
    && (forall id :: id in w.provider.freeIds ==> id <= w.provider.increment)
  }

  lemma {:induction false} StaysSound(later: Trace, trace: Trace)
    requires Follows(later, trace) && Sound(Run(trace))
    ensures Sound(Run(later))
  {
    if later != trace {
      StaysSound(later.before, trace);
      StepKeepsSound(Run(later.before), later.event);
    }
  }

  lemma StepKeepsSound(w: World, e: Event)
    requires Sound(w) && Allowed(w, e)
    ensures Sound(Step(w, e))
  {
  }

  lemma ValidIsSound(trace: Trace)
    requires Valid(trace)
    ensures Sound(Run(trace))
  {
    StaysSound(trace, Begin);
  }

  lemma {:induction false} FollowsOn(last: Trace, later: Trace, trace: Trace)
    requires Follows(last, later) && Follows(later, trace)
    ensures Follows(last, trace)
  {
    if last != later {
      FollowsOn(last.before, later, trace);
    }
  }

  /** Enough acquires to get to the id. */
  function AcquiresLeft(p: Provider, id: nat): nat {
    |p.freeIds| + if id > p.increment then id - p.increment else 0
  }

  /** An id that somebody holds and that is to be handed out again, now or when the counter gets there, is handed out
      again if only there are enough acquires. */
  lemma {:induction false} HandedOutAgain(trace: Trace, holder: Holder, id: nat) returns (later: Trace)
    requires var w := Run(trace);
      Holds(w, holder, id) && (id in w.provider.freeIds || w.provider.increment < id <= MAX_ID)
    ensures Follows(later, trace) && !NoneTwice(Run(later))
    decreases AcquiresLeft(Run(trace).provider, id)
  {
    var w, next := Run(trace), Then(trace, Acquire);
    HoldersAreNumbered(trace);
    assert Follows(trace, trace) && Follows(next, trace);
    if NextId(w.provider) == id {
      later := next;
      assert Holds(Run(later), w.acquired, id) && Holds(Run(later), holder, id);
    } else {
      later := HandedOutAgain(next, holder, id);
      FollowsOn(later, next, trace);
    }
  }

  /** An id that is free without ever having been issued finds a holder before the counter gets there. */
  lemma {:induction false} HandedOutEarly(trace: Trace, id: nat) returns (later: Trace, holder: Holder)
    requires id in Run(trace).provider.freeIds && id > Run(trace).provider.increment
    ensures Follows(later, trace) && Holds(Run(later), holder, id) && id > Run(later).provider.increment
    decreases |Run(trace).provider.freeIds|
  {
    var w, next := Run(trace), Then(trace, Acquire);
    assert Follows(trace, trace) && Follows(next, trace);
    if NextId(w.provider) == id {
      later, holder := next, w.acquired;
    } else {
      later, holder := HandedOutEarly(next, id);
      FollowsOn(later, next, trace);
    }
  }

  /** After a call of freeId by anybody with any id, no continuation in which holders free only what they hold ever has
      two holders of one id, exactly when the id is not beyond the counter and nobody else holds it. */
  lemma NeverTwiceIff(trace: Trace, holder: Holder, id: nat)
    requires Valid(trace) && id <= MAX_ID
    ensures (forall later :: Follows(later, Then(trace, Free(holder, id))) ==> NoneTwice(Run(later))) <==>
      id <= Run(trace).provider.increment && !HeldByAnother(Run(trace), holder, id)
  {
    var w, freed := Run(trace), Then(trace, Free(holder, id));
    ValidIsSound(trace);
    if HeldByAnother(w, holder, id) {
      var other :| other != holder && Holds(w, other, id);
      var later := HandedOutAgain(freed, other, id);
    } else if id > w.provider.increment {
      var once, early := HandedOutEarly(freed, id);
      var later := HandedOutAgain(once, early, id);
      FollowsOn(later, once, freed);
    } else {
      LeftHeld(w, holder, id);
      assert forall h :: h in Run(freed).held ==> Run(freed).held[h] in Run(freed).held.Values;
      forall later | Follows(later, freed)
        ensures NoneTwice(Run(later))
      {
        StaysSound(later, freed);
      }
    }
  }

  /** The first holder frees its id, a second one acquires it, the first frees it again, and a third acquires it too. */
  lemma FreedAgainTooLate()
    ensures var before := Then(Then(Then(Begin, Acquire), Free(0, 1)), Acquire);
      var w := Run(Then(Then(before, Free(0, 1)), Acquire));
      Valid(before) && Holds(w, 1, 1) && Holds(w, 2, 1)
  {
    var first := Then(Begin, Acquire);
    var second := Then(Then(first, Free(0, 1)), Acquire);
    assert Run(first) == World(Provider(1, {}), map[0 := 1], 1);
    assert Valid(first) && Valid(Then(first, Free(0, 1)));
    assert Run(Then(first, Free(0, 1))) == World(Provider(1, {1}), map[], 1);
    assert Run(second) == World(Provider(1, {}), map[1 := 1], 2);
    assert Run(Then(second, Free(0, 1))) == World(Provider(1, {1}), map[1 := 1], 2);
  }
}
