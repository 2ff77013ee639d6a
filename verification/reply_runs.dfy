/** Reply correlation over whole runs: requests, replies, binary frames and sweeps in any interleaving, with ids that
    wrap around (app/src/backend/implementations/ws_impl.js).
 */
module ReplyRuns {
  import opened Wrappers
  import opened TextFrames
  import opened WebSocketClients

  /** The id the k-th request travels under. */
  function RefOf(k: nat): nat {
    k % PERIOD
  }

  datatype Event =
    | Request(now: int)
    | Reply(k: nat, msg: Incoming, hooks: map<string, seq<nat>>)
    | Binary(k: nat, data: string)
    | Push(msg: Incoming, hooks: map<string, seq<nat>>)
    | Sweep(now: int, order: seq<int>)

  /** Replies and binary frames carry the id of some request already made; pushed messages carry none (or -1). */
  ghost predicate Enabled(c: Client, e: Event) {
    match e
    case Request(_) => true
    case Reply(k, msg, _) => k < c.issued && msg.ref == Some(RefOf(k))
    case Binary(k, _) => k < c.issued
    case Push(msg, _) => msg.ref.None? || msg.ref.value < 0
    case Sweep(now, order) => ListsExpired(c, now, order)
  }

  function Step(c: Client, e: Event): Client {
    match e
    case Request(now) => Requested(c, now)
    case Reply(_, msg, hooks) => Dispatched(c, msg, hooks)
    case Binary(k, data) => BinaryArrived(c, Header(RefOf(k)) + data)
    case Push(msg, hooks) => Dispatched(c, msg, hooks)
    case Sweep(_, order) => SweptIn(c, order)
  }

  datatype Trace = Begin | Then(before: Trace, event: Event)

  function Run(trace: Trace): Client {
    match trace
    case Begin => IDLE
    case Then(before, e) => Step(Run(before), e)
  }

  ghost predicate Valid(trace: Trace) {
    match trace
    case Begin => true
    case Then(before, e) => Valid(before) && Enabled(Run(before), e)
  }

  predicate Continues(later: Trace, trace: Trace) {
    later == trace || (later.Then? && Continues(later.before, trace))
  }

  // ---- The table ------------------------------------------------------------------------------------------------

  /** The next id follows the number of requests, and each entry belongs to one of the last PERIOD requests. */
  ghost predicate TableOk(c: Client) {
    && c.replyId == RefOf(c.issued)
    && forall r :: r in c.replyWaiter ==> EntryOk(c, r, c.replyWaiter[r].serial)
  }

  predicate EntryOk(c: Client, r: int, serial: nat) {
    serial < c.issued <= serial + PERIOD && RefOf(serial) == r
  }

  predicate Pending(c: Client, k: nat) {
    RefOf(k) in c.replyWaiter && c.replyWaiter[RefOf(k)].serial == k
  }

  /** How often the k-th promise was settled. */
  function Settlements(log: seq<Effect>, k: nat): nat {
    if log == [] then 0
    else Settlements(log[..|log| - 1], k) + if log[|log| - 1].Settle? && log[|log| - 1].serial == k then 1 else 0
  }

  lemma NextRef(k: nat)
    ensures RefOf(k + 1) == if RefOf(k) > 1_000_000 then 0 else RefOf(k) + 1
  {
  }

  /** Among PERIOD consecutive requests no two share an id. */
  lemma RefsDistinct(j: nat, k: nat)
    requires RefOf(j) == RefOf(k) && j <= k < j + PERIOD
    ensures j == k
  {
    var q, q' := j / PERIOD, k / PERIOD;
    assert k - j == PERIOD * (q' - q);
  }

  lemma RefRepeats(k: nat)
    ensures RefOf(k + PERIOD) == RefOf(k)
  {
  }

  lemma SettlementsGrow(log: seq<Effect>, e: Effect, k: nat)
    ensures Settlements(log + [e], k) == Settlements(log, k) + if e.Settle? && e.serial == k then 1 else 0
  {
    assert (log + [e])[..|log + [e]| - 1] == log;
  }

  lemma {:induction false} NoSettlements(log: seq<Effect>, more: seq<Effect>, k: nat)
    requires forall i :: 0 <= i < |more| ==> !more[i].Settle?
    ensures Settlements(log + more, k) == Settlements(log, k)
    decreases |more|
  {
    if more == [] {
      assert log + more == log;
    } else {
      var last := |more| - 1;
      assert log + more == (log + more[..last]) + [more[last]];
      SettlementsGrow(log + more[..last], more[last], k);
      NoSettlements(log, more[..last], k);
    }
  }

  // ---- One event ------------------------------------------------------------------------------------------------

  /** Settling an id settles the promise waiting under it, and no other. */
  lemma SettledEffect(c: Client, ref: int, outcome: Outcome, k: nat)
    requires TableOk(c)
    ensures var c' := Settled(c, ref, outcome);
      && TableOk(c') && c'.issued == c.issued
      && Settlements(c'.log, k) == Settlements(c.log, k) + (if Pending(c, k) && RefOf(k) == ref then 1 else 0)
      && (Pending(c', k) <==> Pending(c, k) && RefOf(k) != ref)
  {
    if ref in c.replyWaiter {
      SettlementsGrow(c.log, Settle(c.replyWaiter[ref].serial, outcome), k);
    }
  }

  lemma {:induction false} SweepEffect(c: Client, order: seq<int>, k: nat)
    requires TableOk(c) && forall i, j :: 0 <= i < j < |order| ==> order[i] != order[j]
    ensures var c' := SweptIn(c, order);
      && TableOk(c') && c'.issued == c.issued
      && Settlements(c'.log, k) == Settlements(c.log, k) + (if Pending(c, k) && RefOf(k) in order then 1 else 0)
      && (Pending(c', k) <==> Pending(c, k) && RefOf(k) !in order)
    decreases |order|
  {
    if order != [] {
      var front, last := order[..|order| - 1], order[|order| - 1];
      SweepEffect(c, front, k);
      assert last !in front;
      assert order == front + [last];
      var before := SweptIn(c, front);
      var noted := before.(log := before.log + [Complaint]);
      SettlementsGrow(before.log, Complaint, k);
      SettledEffect(noted, last, TimedOut, k);
    }
  }

  lemma DispatchEffect(c: Client, msg: Incoming, hooks: map<string, seq<nat>>, k: nat)
    requires TableOk(c)
    ensures var c' := Dispatched(c, msg, hooks);
      && TableOk(c') && c'.issued == c.issued
      && Settlements(c'.log, k) == Settlements(c.log, k) + (if Pending(c, k) && msg.ref == Some(RefOf(k)) then 1 else 0)
      && (Pending(c', k) <==> Pending(c, k) && msg.ref != Some(RefOf(k)))
  {
    if msg.ref.Some? && msg.ref.value in c.replyWaiter {
      SettledEffect(c, msg.ref.value, if msg.error then Failed else Replied, k);
    } else if msg.event in hooks {
      NoSettlements(c.log, HookCalls(hooks[msg.event]), k);
    } else {
      SettlementsGrow(c.log, Unclaimed, k);
    }
  }

  /** What a binary frame is to the client once its header is read. */
  lemma BinaryReads(c: Client, ref: nat, data: string)
    requires ref < PERIOD
    ensures BinaryArrived(c, Header(ref) + data) ==
      if ref !in c.replyWaiter then c
      else if data != "" then c.(log := c.log + [Bytes(c.replyWaiter[ref].serial, data)])
      else Settled(c, ref, TransferDone)
  {
    HeaderReadsBack(ref);
    var frame := Header(ref) + data;
    assert |frame| == 10 + |data|;
    assert Substr(frame, 0, 10) == frame[0..10] == Header(ref);
    assert frame[10..10 + |data|] == data;
  }

  lemma BinaryEffect(c: Client, ref: nat, data: string, k: nat)
    requires TableOk(c) && ref < PERIOD
    ensures var c' := BinaryArrived(c, Header(ref) + data);
      && TableOk(c') && c'.issued == c.issued
      && Settlements(c'.log, k)
         == Settlements(c.log, k) + (if Pending(c, k) && RefOf(k) == ref && data == "" then 1 else 0)
      && (Pending(c', k) <==> Pending(c, k) && !(RefOf(k) == ref && data == ""))
  {
    BinaryReads(c, ref, data);
    if ref in c.replyWaiter && data != "" {
      SettlementsGrow(c.log, Bytes(c.replyWaiter[ref].serial, data), k);
    } else {
      SettledEffect(c, ref, TransferDone, k);
    }
  }

  lemma RequestEffect(c: Client, now: int, k: nat)
    requires TableOk(c)
    ensures var c' := Requested(c, now);
      && TableOk(c') && c'.issued == c.issued + 1 && c'.log == c.log
      && (Pending(c', k) <==> k == c.issued || (Pending(c, k) && k + PERIOD != c.issued))
  {
    NextRef(c.issued);
    var c' := Requested(c, now);
    forall r | r in c'.replyWaiter
      ensures EntryOk(c', r, c'.replyWaiter[r].serial)
    {
      if r != c.replyId && c.replyWaiter[r].serial + PERIOD == c.issued {
        RefRepeats(c.replyWaiter[r].serial);
      }
    }
    if Pending(c, k) && RefOf(k) == c.replyId && k + PERIOD != c.issued {
      RefsDistinct(k, c.issued);
    }
    RefRepeats(k);
  }

  /** The event ends the wait of request k: its own reply, its own completion frame, or a sweep after its own
      deadline. */
  predicate Ends(c: Client, e: Event, k: nat) {
    match e
    case Reply(j, _, _) => RefOf(j) == RefOf(k)
    case Binary(j, data) => RefOf(j) == RefOf(k) && data == ""
    case Sweep(now, _) => Pending(c, k) && Expired(c.replyWaiter[RefOf(k)], now)
    case _ => false
  }

  lemma StepEffect(c: Client, e: Event, k: nat)
    requires TableOk(c) && Enabled(c, e)
    ensures var c' := Step(c, e);
      && TableOk(c') && c'.issued == (if e.Request? then c.issued + 1 else c.issued)
      && Settlements(c'.log, k) == Settlements(c.log, k) + (if Pending(c, k) && Ends(c, e, k) then 1 else 0)
      && (Pending(c', k) <==>
            || (e.Request? && k == c.issued)
            || (Pending(c, k) && !Ends(c, e, k) && !(e.Request? && k + PERIOD == c.issued)))
  {
    match e
    case Request(now) => RequestEffect(c, now, k);
    case Reply(j, msg, hooks) => DispatchEffect(c, msg, hooks, k);
    case Binary(j, data) => BinaryEffect(c, RefOf(j), data, k);
    case Push(msg, hooks) => DispatchEffect(c, msg, hooks, k);
    case Sweep(now, order) => SweepEffect(c, order, k);
  }

  // ---- Whole runs -----------------------------------------------------------------------------------------------

  lemma {:induction false} TableAlwaysOk(trace: Trace)
    requires Valid(trace)
    ensures TableOk(Run(trace)) && Run(trace).replyId == Run(trace).issued % 1_000_002
  {
    match trace
    case Begin =>
    case Then(before, e) =>
      TableAlwaysOk(before);
      StepEffect(Run(before), e, 0);
  }

  /** Every promise is settled at most once, and not any more while it is pending. Of the last PERIOD requests, each is
      either still pending or was settled exactly once. */
  lemma {:induction false} SettledAtMostOnce(trace: Trace, k: nat)
    requires Valid(trace)
    ensures var c := Run(trace);
      && Settlements(c.log, k) + (if Pending(c, k) then 1 else 0) <= (if k < c.issued then 1 else 0)
      && (k < c.issued <= k + PERIOD ==> Settlements(c.log, k) + (if Pending(c, k) then 1 else 0) == 1)
  {
    match trace
    case Begin =>
    case Then(before, e) =>
      TableAlwaysOk(before);
      SettledAtMostOnce(before, k);
      StepEffect(Run(before), e, k);
  }

  /** A frame sent for request k finds request k itself, rather than a later one under the same id, exactly
      when at most PERIOD - 1 further requests were made in between. */
  lemma FrameFindsItsRequestIff(trace: Trace, k: nat)
    requires Valid(trace) && k < Run(trace).issued && RefOf(k) in Run(trace).replyWaiter
    ensures Pending(Run(trace), k) <==> Run(trace).issued - 1 - k <= 1_000_001
  {
    TableAlwaysOk(trace);
    var c := Run(trace);
    if c.issued <= k + PERIOD {
      var serial := c.replyWaiter[RefOf(k)].serial;
      RefsDistinct(if serial < k then serial else k, if serial < k then k else serial);
    }
  }

  /** The frame arrives in time: at most 1,000,001 further requests were made since its own. */
  predicate InTime(c: Client, e: Event) {
    match e
    case Reply(k, _, _) => c.issued - 1 - k <= 1_000_001
    case Binary(k, _) => c.issued - 1 - k <= 1_000_001
    case _ => true
  }

  // ---- Timeouts -------------------------------------------------------------------------------------------------

  /** When the k-th request was made. */
  function IssuedAt(trace: Trace, k: nat): int {
    match trace
    case Begin => 0
    case Then(before, e) => if e.Request? && Run(before).issued == k then e.now else IssuedAt(before, k)
  }

  /** Whatever frames come in for it, a pending entry keeps the date of its request. */
  lemma {:induction false} DatedByItsRequest(trace: Trace, k: nat)
    requires Valid(trace) && Pending(Run(trace), k)
    ensures Run(trace).replyWaiter[RefOf(k)].date == IssuedAt(trace, k)
  {
    var before, e := trace.before, trace.event;
    TableAlwaysOk(before);
    StepEffect(Run(before), e, k);
    if !(e.Request? && k == Run(before).issued) {
      DatedByItsRequest(before, k);
      StepKeepsDate(Run(before), e, k);
    }
  }

  lemma StepKeepsDate(c: Client, e: Event, k: nat)
    requires TableOk(c) && Enabled(c, e) && Pending(c, k) && Pending(Step(c, e), k)
    ensures Step(c, e).replyWaiter[RefOf(k)] == c.replyWaiter[RefOf(k)]
  {
    match e
    case Binary(j, data) => BinaryReads(c, RefOf(j), data);
    case Sweep(_, order) => SweepKeepsEntries(c, order, RefOf(k));
    case _ =>
  }

  lemma {:induction false} SweepKeepsEntries(c: Client, order: seq<int>, ref: int)
    ensures var c' := SweptIn(c, order);
      ref in c'.replyWaiter ==> ref in c.replyWaiter && c'.replyWaiter[ref] == c.replyWaiter[ref]
    decreases |order|
  {
    if order != [] {
      SweepKeepsEntries(c, order[..|order| - 1], ref);
    }
  }

  /** A sweep times a waiting request out exactly if it comes more than the timeout after the request was made, however
      many binary frames came in for it since. Otherwise the request goes on waiting. */
  lemma TimesOutIff(trace: Trace, now: int, order: seq<int>, k: nat)
    requires Valid(trace) && Pending(Run(trace), k) && Enabled(Run(trace), Sweep(now, order))
    ensures var log := Run(Then(trace, Sweep(now, order))).log;
      Settle(k, TimedOut) in log <==> now - IssuedAt(trace, k) > 30_000
    ensures Pending(Run(Then(trace, Sweep(now, order))), k) <==> now - IssuedAt(trace, k) <= 30_000
  {
    var c := Run(trace);
    TableAlwaysOk(trace);
    DatedByItsRequest(trace, k);
    SweepEffect(c, order, k);
    SettledAtMostOnce(trace, k);
    SweepSettles(c, order, k);
    NotAmong(c.log, Settle(k, TimedOut), k);
  }

  lemma {:induction false} SweepSettles(c: Client, order: seq<int>, k: nat)
    requires TableOk(c) && forall i, j :: 0 <= i < j < |order| ==> order[i] != order[j]
    ensures Settle(k, TimedOut) in SweptIn(c, order).log <==>
      Settle(k, TimedOut) in c.log || (Pending(c, k) && RefOf(k) in order)
    decreases |order|
  {
    if order != [] {
      var front, last := order[..|order| - 1], order[|order| - 1];
      assert order == front + [last];
      SweepSettles(c, front, k);
      SweepEffect(c, front, k);
    }
  }

  lemma {:induction false} NotAmong(log: seq<Effect>, e: Effect, k: nat)
    requires Settlements(log, k) == 0 && e.Settle? && e.serial == k
    ensures e !in log
    decreases |log|
  {
    if log != [] {
      assert log == log[..|log| - 1] + [log[|log| - 1]];
      NotAmong(log[..|log| - 1], e, k);
    }
  }

  /** No sweep that found request k waiting came later than the timeout after the request was made. */
  predicate NoLateSweep(trace: Trace, k: nat) {
    match trace
    case Begin => true
    case Then(before, e) => NoLateSweep(before, k) && !LateSweep(before, e, k)
  }

  predicate LateSweep(trace: Trace, e: Event, k: nat) {
    e.Sweep? && Pending(Run(trace), k) && e.now - IssuedAt(trace, k) > 30_000
  }

  /** Over a whole run: a promise was ever rejected by timeout exactly if some sweep came too late for it. */
  lemma {:induction false} EverTimedOutIff(trace: Trace, k: nat)
    requires Valid(trace)
    ensures Settle(k, TimedOut) in Run(trace).log <==> !NoLateSweep(trace, k)
  {
    match trace
    case Begin =>
    case Then(before, e) =>
      TableAlwaysOk(before);
      EverTimedOutIff(before, k);
      if e.Sweep? {
        SweepSettles(Run(before), e.order, k);
        if Pending(Run(before), k) {
          DatedByItsRequest(before, k);
        }
      } else {
        OnlySweepsTimeOut(Run(before), e, k);
      }
  }

  lemma OnlySweepsTimeOut(c: Client, e: Event, k: nat)
    requires TableOk(c) && Enabled(c, e) && !e.Sweep?
    ensures Settle(k, TimedOut) in Step(c, e).log <==> Settle(k, TimedOut) in c.log
  {
    if e.Binary? {
      BinaryReads(c, RefOf(e.k), e.data);
    }
  }

  // ---- With what outcome ------------------------------------------------------------------------------------------

  /** The event settles promise k in this way, read off the event: a reply rejects if it carries an error and resolves
      if it does not, a bare header completes, and a sweep rejects what waited too long. */
  predicate SettlesAs(trace: Trace, e: Event, k: nat, outcome: Outcome) {
    && Pending(Run(trace), k)
    && match e
       case Reply(j, msg, _) => RefOf(j) == RefOf(k) && outcome == if msg.error then Failed else Replied
       case Binary(j, data) => RefOf(j) == RefOf(k) && data == "" && outcome == TransferDone
       case Sweep(now, _) => now - IssuedAt(trace, k) > 30_000 && outcome == TimedOut
       case _ => false
  }

  predicate EverSettledAs(trace: Trace, k: nat, outcome: Outcome) {
    match trace
    case Begin => false
    case Then(before, e) => EverSettledAs(before, k, outcome) || SettlesAs(before, e, k, outcome)
  }

  /** Over a whole run: a promise was ever settled in a way exactly if an event that settles so found it waiting. */
  lemma {:induction false} OutcomeIff(trace: Trace, k: nat, outcome: Outcome)
    requires Valid(trace)
    ensures Settle(k, outcome) in Run(trace).log <==> EverSettledAs(trace, k, outcome)
  {
    match trace
    case Begin =>
    case Then(before, e) =>
      TableAlwaysOk(before);
      OutcomeIff(before, k, outcome);
      if Pending(Run(before), k) {
        DatedByItsRequest(before, k);
      }
      StepOutcome(before, e, k, outcome);
  }

  lemma StepOutcome(trace: Trace, e: Event, k: nat, outcome: Outcome)
    requires TableOk(Run(trace)) && Enabled(Run(trace), e)
    requires Pending(Run(trace), k) ==> Run(trace).replyWaiter[RefOf(k)].date == IssuedAt(trace, k)
    ensures Settle(k, outcome) in Step(Run(trace), e).log <==>
      Settle(k, outcome) in Run(trace).log || SettlesAs(trace, e, k, outcome)
  {
    var c := Run(trace);
    match e
    case Request(_) =>
    case Reply(j, msg, hooks) => DispatchOutcome(c, msg, hooks, k, outcome);
    case Push(msg, hooks) => DispatchOutcome(c, msg, hooks, k, outcome);
    case Binary(j, data) =>
      BinaryReads(c, RefOf(j), data);
      SettledOutcome(c, RefOf(j), TransferDone, k, outcome);
    case Sweep(now, order) =>
      SweepSettles(c, order, k);
      if outcome != TimedOut {
        SweepOnlyTimesOut(c, order, k, outcome);
      }
  }

  lemma SettledOutcome(c: Client, ref: int, how: Outcome, k: nat, outcome: Outcome)
    requires TableOk(c)
    ensures Settle(k, outcome) in Settled(c, ref, how).log <==>
      Settle(k, outcome) in c.log || (Pending(c, k) && RefOf(k) == ref && outcome == how)
  {
  }

  lemma DispatchOutcome(c: Client, msg: Incoming, hooks: map<string, seq<nat>>, k: nat, outcome: Outcome)
    requires TableOk(c)
    ensures Settle(k, outcome) in Dispatched(c, msg, hooks).log <==>
      || Settle(k, outcome) in c.log
      || (Pending(c, k) && msg.ref == Some(RefOf(k)) && outcome == if msg.error then Failed else Replied)
  {
    if msg.ref.Some? {
      SettledOutcome(c, msg.ref.value, if msg.error then Failed else Replied, k, outcome);
    }
  }

  lemma {:induction false} SweepOnlyTimesOut(c: Client, order: seq<int>, k: nat, outcome: Outcome)
    requires outcome != TimedOut
    ensures Settle(k, outcome) in SweptIn(c, order).log <==> Settle(k, outcome) in c.log
    decreases |order|
  {
    if order != [] {
      SweepOnlyTimesOut(c, order[..|order| - 1], k, outcome);
    }
  }

  /** A message that answers a waiting request settles it, and that is all it does; nor does a binary frame for it do
      any more than hand over its bytes, or complete it if there are none. */
  lemma AnswerOnlySettles(c: Client, ref: nat, msg: Incoming, hooks: map<string, seq<nat>>, data: string)
    requires ref in c.replyWaiter && ref < PERIOD && msg.ref == Some(ref)
    ensures var serial := c.replyWaiter[ref].serial;
      && Dispatched(c, msg, hooks) == c.(replyWaiter := c.replyWaiter - {ref},
           log := c.log + [Settle(serial, if msg.error then Failed else Replied)])
      && BinaryArrived(c, Header(ref) + data) ==
           if data == "" then c.(replyWaiter := c.replyWaiter - {ref}, log := c.log + [Settle(serial, TransferDone)])
           else c.(log := c.log + [Bytes(serial, data)])
  {
    BinaryReads(c, ref, data);
  }

  /** A message that answers no waiting request calls every hook of its event, in the order they were registered, or
      else goes to onMessage once, and the table stays as it is. */
  lemma UnansweredGoesToHooks(c: Client, msg: Incoming, hooks: map<string, seq<nat>>)
    requires msg.ref == None || msg.ref.value !in c.replyWaiter
    ensures var c' := Dispatched(c, msg, hooks);
      var calls := if msg.event in hooks then hooks[msg.event] else [];
      && c'.replyWaiter == c.replyWaiter && c'.textBuffer == c.textBuffer && c.log <= c'.log
      && (msg.event in hooks ==>
            |c'.log| == |c.log| + |calls| && forall i :: 0 <= i < |calls| ==> c'.log[|c.log| + i] == Hook(calls[i]))
      && (msg.event !in hooks ==> c'.log == c.log + [Unclaimed])
  {
  }

  /** For each of the requests, a complaint and then its rejection. */
  function Reports(waiting: map<int, Waiter>, order: seq<int>): seq<Effect>
    requires forall r :: r in order ==> r in waiting
  {
    if order == [] then []
    else
      var last := order[|order| - 1];
      Reports(waiting, order[..|order| - 1]) + [Complaint, Settle(waiting[last].serial, TimedOut)]
  }

  /** A sweep reports each request that it rejects, right before it does, and touches no other. */
  lemma {:induction false} SweepReports(c: Client, order: seq<int>)
    requires forall i, j :: 0 <= i < j < |order| ==> order[i] != order[j]
    requires forall r :: r in order ==> r in c.replyWaiter
    ensures SweptIn(c, order)
         == c.(log := c.log + Reports(c.replyWaiter, order), replyWaiter := c.replyWaiter - (set r | r in order))
    decreases |order|
  {
    if order == [] {
      assert c.log + [] == c.log;
      assert c.replyWaiter - (set r | r in order) == c.replyWaiter;
    } else {
      var front, last := order[..|order| - 1], order[|order| - 1];
      assert order == front + [last];
      SweepReports(c, front);
      LastOfSweep(c, front, last);
    }
  }

  lemma LastOfSweep(c: Client, front: seq<int>, last: int)
    requires last in c.replyWaiter && last !in front && forall r :: r in front ==> r in c.replyWaiter
    requires SweptIn(c, front)
          == c.(log := c.log + Reports(c.replyWaiter, front), replyWaiter := c.replyWaiter - (set r | r in front))
    ensures var order := front + [last];
      SweptIn(c, order)
      == c.(log := c.log + Reports(c.replyWaiter, order), replyWaiter := c.replyWaiter - (set r | r in order))
  {
    var order, reports := front + [last], Reports(c.replyWaiter, front);
    var report := [Complaint, Settle(c.replyWaiter[last].serial, TimedOut)];
    assert order[..|front|] == front;
    assert c.replyWaiter - (set r | r in order) == (c.replyWaiter - (set r | r in front)) - {last};
    assert c.log + (reports + report) == ((c.log + reports) + [report[0]]) + [report[1]];
  }

  /** A binary frame without a readable reference, or with one that nothing waits under, is ignored. */
  lemma StrayFrameIsIgnored(c: Client, frame: string)
    requires var ref := ParseInt(Substr(frame, 0, 10)); ref == None || ref.value !in c.replyWaiter
    ensures BinaryArrived(c, frame) == c
  {
  }

  /** Two different settlements are two settlements. */
  lemma {:induction false} SettledTwice(log: seq<Effect>, a: Outcome, b: Outcome, k: nat)
    requires Settle(k, a) in log && Settle(k, b) in log && a != b
    ensures Settlements(log, k) >= 2
    decreases |log|
  {
    var front, last := log[..|log| - 1], log[|log| - 1];
    assert log == front + [last];
    if last == Settle(k, a) {
      SettledOnce(front, b, k);
    } else if last == Settle(k, b) {
      SettledOnce(front, a, k);
    } else {
      SettledTwice(front, a, b, k);
    }
  }

  lemma {:induction false} SettledOnce(log: seq<Effect>, a: Outcome, k: nat)
    requires Settle(k, a) in log
    ensures Settlements(log, k) >= 1
  {
    if Settlements(log, k) == 0 {
      NotAmong(log, Settle(k, a), k);
    }
  }

  /** A transfer asked for at a given time, for which pieces of data have come in since. */
  function Lively(now: int, pieces: seq<string>): Trace {
    if pieces == [] then Then(Begin, Request(now))
    else Then(Lively(now, pieces[..|pieces| - 1]), Binary(0, pieces[|pieces| - 1]))
  }

  /** However lively the transfer is, a sweep just after the timeout rejects it. */
  lemma LivelyTransferTimesOut(now: int, pieces: seq<string>)
    requires forall i :: 0 <= i < |pieces| ==> pieces[i] != ""
    ensures var e := Sweep(now + 30_001, [0]);
      && Valid(Then(Lively(now, pieces), e))
      && Settle(0, TimedOut) in Run(Then(Lively(now, pieces), e)).log
  {
    var trace := Lively(now, pieces);
    LivelyTransferWaits(now, pieces);
    TimesOutIff(trace, now + 30_001, [0], 0);
  }

  lemma {:induction false} LivelyTransferWaits(now: int, pieces: seq<string>)
    requires forall i :: 0 <= i < |pieces| ==> pieces[i] != ""
    ensures var trace := Lively(now, pieces);
      && Valid(trace) && Run(trace).issued == 1 && IssuedAt(trace, 0) == now
      && Run(trace).replyWaiter == map[0 := Waiter(0, now)]
      && Run(trace).log == seq(|pieces|, i requires 0 <= i < |pieces| => Bytes(0, pieces[i]))
    decreases |pieces|
  {
    if pieces != [] {
      var front, piece := pieces[..|pieces| - 1], pieces[|pieces| - 1];
      LivelyTransferWaits(now, front);
      BinaryReads(Run(Lively(now, front)), 0, piece);
    } else {
      assert Run(Begin) == IDLE;
    }
  }

  // ---- Settled by what --------------------------------------------------------------------------------------------

  /** The event is about request k: a frame sent for it, or a sweep after its own deadline, counted from the request. */
  predicate Addresses(trace: Trace, e: Event, k: nat) {
    match e
    case Reply(j, _, _) => j == k
    case Binary(j, _) => j == k
    case Sweep(now, _) => now - IssuedAt(trace, k) > 30_000
    case _ => false
  }

  /** As long as frames arrive in time, a promise is settled only by its own reply, completion or timeout. */
  lemma {:induction false} SettledOnlyByItsOwn(trace: Trace, e: Event, k: nat)
    requires Valid(Then(trace, e)) && InTime(Run(trace), e)
    requires Settlements(Run(Then(trace, e)).log, k) != Settlements(Run(trace).log, k)
    ensures Pending(Run(trace), k) && Addresses(trace, e, k)
  {
    TableAlwaysOk(trace);
    var c := Run(trace);
    StepEffect(c, e, k);
    DatedByItsRequest(trace, k);
    if e.Reply? || e.Binary? {
      FrameFindsItsRequestIff(trace, e.k);
    }
  }

  /** A request takes over the table entry of a pending one exactly when the request PERIOD before it is still
      waiting; that promise is then never settled, whatever comes later. */
  lemma LostIff(trace: Trace, now: int, k: nat)
    requires Valid(trace) && k + PERIOD == Run(trace).issued
    ensures RefOf(k) == Run(trace).replyId
    ensures Run(trace).replyId in Run(trace).replyWaiter <==> Settlements(Run(trace).log, k) == 0
    ensures Run(trace).replyId in Run(trace).replyWaiter ==> Pending(Run(trace), k)
  {
    TableAlwaysOk(trace);
    SettledAtMostOnce(trace, k);
    RefRepeats(k);
    if RefOf(k) in Run(trace).replyWaiter {
      FrameFindsItsRequestIff(trace, k);
    }
  }

  lemma {:induction false} LostForever(trace: Trace, later: Trace, k: nat)
    requires Valid(later) && Continues(later, trace)
    requires k < Run(trace).issued && !Pending(Run(trace), k)
    ensures !Pending(Run(later), k) && Settlements(Run(later).log, k) == Settlements(Run(trace).log, k)
    ensures Run(trace).issued <= Run(later).issued
  {
    if later != trace {
      LostForever(trace, later.before, k);
      TableAlwaysOk(later.before);
      StepEffect(Run(later.before), later.event, k);
    }
  }
}
