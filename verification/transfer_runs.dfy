/** File transfers end to end: any number of writers feeding one ordered connection, their completion callbacks, the
    frames in flight, and the client at the other end with its other traffic, in any interleaving.
 */
module TransferRuns {
  import opened Wrappers
  import opened TextFrames
  import opened WebSocketClients
  import opened FileSenders
  import R = ReplyRuns

  /** Writers are known by the serial number of the request they answer. `channel` holds the binary frames written and
      not yet received, in order. */
  datatype World = World(client: Client, senders: map<nat, Sender>, channel: seq<string>)

  datatype Event =
    | Load(file: string, now: int)
    | Complete(k: nat)
    | Deliver
    | Other(event: R.Event)

  function Fresh(ref: nat, file: string): Sender {
    Sender(ref, file, 0, Idle)
  }

  function Step(w: World, e: Event): World {
    match e
    case Load(file, now) =>
      var s := Fresh(R.RefOf(w.client.issued), file);
      World(Requested(w.client, now), w.senders[w.client.issued := Wrote(s)],
            w.channel + FramesOf(s.ref, [NextRead(s)]))
    case Complete(k) =>
      if k in w.senders && SenderOk(w.senders[k]) then
        var s := w.senders[k];
        w.(senders := w.senders[k := Completed(s)], channel := w.channel + FramesOf(s.ref, CompletionSends(s)))
      else w
    case Deliver =>
      if w.channel == [] then w
      else w.(client := BinaryArrived(w.client, w.channel[0]), channel := w.channel[1..])
    case Other(event) => w.(client := R.Step(w.client, event))
  }

  // ---- What is under way for one id -----------------------------------------------------------------------------

  /** The id a frame's header reads as. */
  function RefIn(frame: string): int {
    match ParseInt(Substr(frame, 0, 10))
    case None => -1
    case Some(ref) => ref
  }

  function PayloadOf(frame: string): string {
    if |frame| <= 10 then "" else frame[10..]
  }

  /** The payloads in flight under an id. */
  function InTransit(channel: seq<string>, ref: nat): seq<string> {
    if channel == [] then [] else Carried(channel[0], ref) + InTransit(channel[1..], ref)
  }

  function Carried(frame: string, ref: nat): seq<string> {
    if RefIn(frame) == ref then [PayloadOf(frame)] else []
  }

  /** No writer that uses the id has anything left to send, and no frame under it is in flight. */
  ghost predicate IdleRef(w: World, ref: nat) {
    && InTransit(w.channel, ref) == []
    && forall k :: k in w.senders && w.senders[k].ref == ref ==> SenderOk(w.senders[k]) && Remaining(w.senders[k]) == []
  }

  /** Transfers have distinct ids: a request does not take the id of a transfer that is still under way. Text
      replies answer requests other than transfers, in time. */
  ghost predicate Enabled(w: World, e: Event) {
    match e
    case Load(_, _) => IdleRef(w, R.RefOf(w.client.issued))
    case Complete(k) => k in w.senders && w.senders[k].phase != Idle
    case Deliver => w.channel != []
    case Other(event) =>
      && R.Enabled(w.client, event)
      && !event.Binary?
      && (event.Request? ==> IdleRef(w, R.RefOf(w.client.issued)))
      && (event.Reply? ==> event.k !in w.senders && R.InTime(w.client, event))
  }

  datatype Trace = Begin | Then(before: Trace, event: Event)

  function Run(trace: Trace): World {
    match trace
    case Begin => World(IDLE, map[], [])
    case Then(before, e) => Step(Run(before), e)
  }

  ghost predicate Valid(trace: Trace) {
    match trace
    case Begin => true
    case Then(before, e) => Valid(before) && Enabled(Run(before), e)
  }

  predicate Continues(later: Trace, trace: Trace) {
    later == trace || (later.Then? && Continues(later.before, trace))
  }

  lemma FrameReads(ref: nat, payload: string)
    requires ref < PERIOD
    ensures RefIn(Header(ref) + payload) == ref
    ensures PayloadOf(Header(ref) + payload) == payload
  {
    HeaderReadsBack(ref);
    assert Substr(Header(ref) + payload, 0, 10) == (Header(ref) + payload)[0..10] == Header(ref);
  }

  lemma {:induction false} InTransitAppend(channel: seq<string>, more: seq<string>, ref: nat)
    ensures InTransit(channel + more, ref) == InTransit(channel, ref) + InTransit(more, ref)
    decreases |channel|
  {
    if channel == [] {
      assert channel + more == more;
    } else {
      var first, rest := channel[0], channel[1..];
      InTransitAppend(rest, more, ref);
      calc {
        InTransit(channel + more, ref);
        { HeadFirst(channel, more); }
        Carried(first, ref) + (InTransit(rest, ref) + InTransit(more, ref));
        { Regroup(Carried(first, ref), InTransit(rest, ref), InTransit(more, ref)); }
        (Carried(first, ref) + InTransit(rest, ref)) + InTransit(more, ref);
        { HeadFirst(channel, []); }
        InTransit(channel, ref) + InTransit(more, ref);
      }
    }
  }

  lemma HeadFirst(a: seq<string>, b: seq<string>)
    requires a != []
    ensures a + b == [a[0]] + (a[1..] + b) && a == [a[0]] + a[1..]
  {
  }

  lemma InTransitOf(from: nat, payloads: seq<string>, ref: nat)
    requires from < PERIOD && ref < PERIOD && |payloads| <= 1
    ensures InTransit(FramesOf(from, payloads), ref) == if from == ref then payloads else []
  {
    if |payloads| == 1 {
      FrameReads(from, payloads[0]);
      assert FramesOf(from, payloads) == [Header(from) + payloads[0]];
      assert [Header(from) + payloads[0]][1..] == [];
    }
  }

  // ---- The senders and the channel ------------------------------------------------------------------------------

  ghost predicate SendersOk(w: World) {
    forall k :: k in w.senders ==> k < w.client.issued && w.senders[k].ref == R.RefOf(k) && SenderOk(w.senders[k])
  }

  predicate FrameOk(frame: string, issued: nat) {
    0 <= RefIn(frame) < issued && RefIn(frame) < PERIOD && frame == Header(RefIn(frame)) + PayloadOf(frame)
  }

  ghost predicate ChannelOk(w: World) {
    forall i :: 0 <= i < |w.channel| ==> FrameOk(w.channel[i], w.client.issued)
  }

  lemma NewFramesOk(ref: nat, payloads: seq<string>, issued: nat)
    requires ref < PERIOD && ref < issued && |payloads| <= 1
    ensures forall i :: 0 <= i < |payloads| ==> FrameOk(FramesOf(ref, payloads)[i], issued)
  {
    if |payloads| == 1 {
      FrameReads(ref, payloads[0]);
    }
  }

  /** The same run as the client sees it. */
  function ClientTrace(trace: Trace): R.Trace {
    match trace
    case Begin => R.Begin
    case Then(before, Load(_, now)) => R.Then(ClientTrace(before), R.Request(now))
    case Then(before, Complete(_)) => ClientTrace(before)
    case Then(before, Deliver) =>
      var channel := Run(before).channel;
      if channel == [] || RefIn(channel[0]) < 0 then ClientTrace(before)
      else R.Then(ClientTrace(before), R.Binary(RefIn(channel[0]), PayloadOf(channel[0])))
    case Then(before, Other(event)) => R.Then(ClientTrace(before), event)
  }

  lemma RefAtMost(k: nat)
    ensures R.RefOf(k) <= k && R.RefOf(k) < PERIOD
    ensures k < PERIOD ==> R.RefOf(k) == k
  {
  }

  lemma StepKeepsChannel(w: World, e: Event)
    requires SendersOk(w) && ChannelOk(w) && Enabled(w, e)
    requires Step(w, e).client.issued == w.client.issued + if e.Load? || (e.Other? && e.event.Request?) then 1 else 0
    ensures ChannelOk(Step(w, e))
  {
    RefAtMost(w.client.issued);
    match e
    case Load(file, _) =>
      NewFramesOk(R.RefOf(w.client.issued), [NextRead(Fresh(R.RefOf(w.client.issued), file))], w.client.issued + 1);
    case Complete(k) =>
      RefAtMost(k);
      NewFramesOk(R.RefOf(k), CompletionSends(w.senders[k]), w.client.issued);
    case _ =>
  }

  lemma {:induction false} SameClient(trace: Trace)
    requires Valid(trace)
    ensures SendersOk(Run(trace)) && ChannelOk(Run(trace))
    ensures R.Valid(ClientTrace(trace)) && R.Run(ClientTrace(trace)) == Run(trace).client
  {
    match trace
    case Begin =>
    case Then(before, e) =>
      var w := Run(before);
      SameClient(before);
      R.TableAlwaysOk(ClientTrace(before));
      match e {
        case Deliver =>
          RefAtMost(RefIn(w.channel[0]));
          R.BinaryEffect(w.client, RefIn(w.channel[0]), PayloadOf(w.channel[0]), 0);
        case Other(event) => R.StepEffect(w.client, event, 0);
        case _ =>
      }
      StepKeepsChannel(w, e);
  }

  // ---- What the receiver of one transfer sees -------------------------------------------------------------------

  /** The bytes handed to request k so far. */
  function Received(log: seq<Effect>, k: nat): string {
    if log == [] then ""
    else
      var last := log[|log| - 1];
      Received(log[..|log| - 1], k) + if last.Bytes? && last.serial == k then last.data else ""
  }

  /** Whenever the promise of k resolved, the whole file had been handed over; and nothing but completion or a
      timeout ever settled it. */
  ghost predicate LogOk(log: seq<Effect>, k: nat, file: string) {
    forall i :: 0 <= i < |log| && log[i].Settle? && log[i].serial == k ==>
      log[i].outcome == TimedOut || (log[i].outcome == TransferDone && Received(log[..i], k) == file)
  }

  /** The log names no request that was not made yet. */
  ghost predicate LogBelow(log: seq<Effect>, issued: nat) {
    forall i :: 0 <= i < |log| ==>
      (log[i].Settle? ==> log[i].serial < issued) && (log[i].Bytes? ==> log[i].serial < issued)
  }

  lemma LogGrows(log: seq<Effect>, e: Effect, k: nat, file: string)
    ensures Received(log + [e], k) == Received(log, k) + if e.Bytes? && e.serial == k then e.data else ""
    ensures LogOk(log, k, file) && (e.Settle? && e.serial == k ==>
        e.outcome == TimedOut || (e.outcome == TransferDone && Received(log, k) == file))
      ==> LogOk(log + [e], k, file)
  {
    assert (log + [e])[..|log + [e]| - 1] == log;
    assert forall i :: 0 <= i <= |log| ==> (log + [e])[..i] == log[..i];
  }

  /** The client step hands k nothing and leaves its record in order. */
  ghost predicate Quiet(c: Client, c': Client, k: nat, file: string) {
    && Received(c'.log, k) == Received(c.log, k)
    && (LogOk(c.log, k, file) ==> LogOk(c'.log, k, file))
    && (LogBelow(c.log, c.issued) ==> LogBelow(c'.log, c'.issued))
  }

  lemma SettledQuiet(c: Client, ref: int, outcome: Outcome, k: nat, file: string)
    requires R.TableOk(c)
    requires outcome == TimedOut || !(R.Pending(c, k) && ref == R.RefOf(k))
    ensures Quiet(c, Settled(c, ref, outcome), k, file)
  {
    if ref in c.replyWaiter {
      LogGrows(c.log, Settle(c.replyWaiter[ref].serial, outcome), k, file);
    }
  }

  lemma {:induction false} SweepQuiet(c: Client, order: seq<int>, k: nat, file: string)
    requires R.TableOk(c) && forall i, j :: 0 <= i < j < |order| ==> order[i] != order[j]
    ensures Quiet(c, SweptIn(c, order), k, file)
    decreases |order|
  {
    if order != [] {
      var front := order[..|order| - 1];
      SweepQuiet(c, front, k, file);
      R.SweepEffect(c, front, k);
      SweptOneQuiet(SweptIn(c, front), order[|order| - 1], k, file);
    }
  }

  lemma SweptOneQuiet(c: Client, ref: int, k: nat, file: string)
    requires R.TableOk(c)
    ensures Quiet(c, Settled(c.(log := c.log + [Complaint]), ref, TimedOut), k, file)
  {
    LogGrows(c.log, Complaint, k, file);
    SettledQuiet(c.(log := c.log + [Complaint]), ref, TimedOut, k, file);
  }

  lemma {:induction false} HooksQuiet(log: seq<Effect>, hooks: seq<nat>, issued: nat, k: nat, file: string)
    ensures Received(log + HookCalls(hooks), k) == Received(log, k)
    ensures LogOk(log, k, file) ==> LogOk(log + HookCalls(hooks), k, file)
    decreases |hooks|
  {
    if hooks == [] {
      assert log + HookCalls(hooks) == log;
    } else {
      var last := |hooks| - 1;
      HooksQuiet(log, hooks[..last], issued, k, file);
      assert log + HookCalls(hooks) == (log + HookCalls(hooks[..last])) + [Hook(hooks[last])];
      LogGrows(log + HookCalls(hooks[..last]), Hook(hooks[last]), k, file);
    }
  }

  lemma DispatchQuiet(c: Client, msg: Incoming, hooks: map<string, seq<nat>>, k: nat, file: string)
    requires R.TableOk(c) && !(R.Pending(c, k) && msg.ref == Some(R.RefOf(k)))
    ensures Quiet(c, Dispatched(c, msg, hooks), k, file)
  {
    if msg.ref.Some? && msg.ref.value in c.replyWaiter {
      SettledQuiet(c, msg.ref.value, if msg.error then Failed else Replied, k, file);
    } else if msg.event in hooks {
      HooksQuiet(c.log, hooks[msg.event], c.issued, k, file);
    } else {
      LogGrows(c.log, Unclaimed, k, file);
    }
  }

  lemma BinaryQuiet(c: Client, ref: nat, data: string, k: nat, file: string)
    requires R.TableOk(c) && ref < PERIOD && !(R.Pending(c, k) && ref == R.RefOf(k))
    ensures Quiet(c, BinaryArrived(c, Header(ref) + data), k, file)
  {
    R.BinaryReads(c, ref, data);
    if ref in c.replyWaiter && data != "" {
      LogGrows(c.log, Bytes(c.replyWaiter[ref].serial, data), k, file);
    } else {
      SettledQuiet(c, ref, TransferDone, k, file);
    }
  }

  // ---- One transfer through the whole run -----------------------------------------------------------------------

  /** What transfer k still has to deliver: its frames in flight, then what its writer has yet to send. */
  function Owed(w: World, k: nat): seq<string>
    requires k in w.senders && SenderOk(w.senders[k])
  {
    InTransit(w.channel, R.RefOf(k)) + Remaining(w.senders[k])
  }

  /** `owed` is the end of the file's payloads `all`; before the first bare header, what was handed over is the rest. */
  ghost predicate Progress(c: Client, k: nat, all: seq<string>, owed: seq<string>) {
    && |owed| <= |all|
    && all[|all| - |owed|..] == owed
    && (R.Pending(c, k) ==>
          && Received(c.log, k) == Joined(all[..|all| - |owed|])
          && forall i :: 0 <= i < |all| - |owed| ==> all[i] != "")
  }

  ghost predicate TransferOk(w: World, k: nat)
    requires k in w.senders && SenderOk(w.senders[k])
  {
    && LogOk(w.client.log, k, w.senders[k].file)
    && if w.client.issued > k + PERIOD
       then !R.Pending(w.client, k) && Remaining(w.senders[k]) == []
       else Progress(w.client, k, Payloads(w.senders[k].file, 0), Owed(w, k))
  }

  /** Nothing happened to k: its writer, its frames and its entry are as before. */
  lemma TransferUntouched(w: World, w': World, k: nat)
    requires k in w.senders && SenderOk(w.senders[k]) && TransferOk(w, k)
    requires k in w'.senders && w'.senders[k] == w.senders[k]
    requires Quiet(w.client, w'.client, k, w.senders[k].file) && w'.client.issued == w.client.issued
    requires R.Pending(w'.client, k) ==> R.Pending(w.client, k)
    requires w.client.issued <= k + PERIOD ==> InTransit(w'.channel, R.RefOf(k)) == InTransit(w.channel, R.RefOf(k))
    ensures TransferOk(w', k)
  {
    if w.client.issued <= k + PERIOD {
      ProgressKept(w.client, w'.client, k, w.senders[k].file, Payloads(w.senders[k].file, 0), Owed(w, k));
    }
  }

  lemma ProgressKept(c: Client, c': Client, k: nat, file: string, all: seq<string>, owed: seq<string>)
    requires Progress(c, k, all, owed) && Quiet(c, c', k, file) && (R.Pending(c', k) ==> R.Pending(c, k))
    ensures Progress(c', k, all, owed)
  {
  }

  /** A new request leaves a transfer under way alone, or finds it finished when it takes over its id. */
  lemma RequestKeeps(w: World, w': World, now: int, k: nat)
    requires k in w.senders && k < w.client.issued && SenderOk(w.senders[k]) && TransferOk(w, k)
    requires w.senders[k].ref == R.RefOf(k) && R.TableOk(w.client) && IdleRef(w, R.RefOf(w.client.issued))
    requires w'.client == Requested(w.client, now) && k in w'.senders && w'.senders[k] == w.senders[k]
    requires R.RefOf(k) != R.RefOf(w.client.issued) ==>
      InTransit(w'.channel, R.RefOf(k)) == InTransit(w.channel, R.RefOf(k))
    ensures TransferOk(w', k)
  {
    var file := w.senders[k].file;
    R.RequestEffect(w.client, now, k);
    if w.client.issued == k + PERIOD {
      R.RefRepeats(k);
    } else if w.client.issued < k + PERIOD {
      if R.RefOf(k) == R.RefOf(w.client.issued) {
        R.RefsDistinct(k, w.client.issued);
      }
      ProgressKept(w.client, w'.client, k, file, Payloads(file, 0), Owed(w, k));
    }
  }

  lemma TransferStarts(w: World, file: string, now: int)
    requires R.TableOk(w.client) && LogBelow(w.client.log, w.client.issued) && IdleRef(w, R.RefOf(w.client.issued))
    ensures TransferOk(Step(w, Load(file, now)), w.client.issued)
  {
    var k, w' := w.client.issued, Step(w, Load(file, now));
    var s := Fresh(R.RefOf(k), file);
    RefAtMost(k);
    R.RequestEffect(w.client, now, k);
    UnknownReceivesNothing(w.client.log, k);
    WriteSendsNext(s);
    InTransitAppend(w.channel, FramesOf(s.ref, [NextRead(s)]), s.ref);
    InTransitOf(s.ref, [NextRead(s)], s.ref);
    assert Owed(w', k) == Payloads(file, 0);
    assert Payloads(file, 0)[..0] == [];
  }

  lemma {:induction false} UnknownReceivesNothing(log: seq<Effect>, k: nat)
    requires LogBelow(log, k)
    ensures Received(log, k) == ""
    decreases |log|
  {
    if log != [] {
      UnknownReceivesNothing(log[..|log| - 1], k);
    }
  }

  lemma CompleteKeepsOwed(w: World, k: nat)
    requires k in w.senders && SenderOk(w.senders[k]) && w.senders[k].ref == R.RefOf(k) && w.senders[k].phase != Idle
    ensures Owed(Step(w, Complete(k)), k) == Owed(w, k)
    ensures Remaining(w.senders[k]) == [] ==> Remaining(Completed(w.senders[k])) == []
  {
    var s := w.senders[k];
    RefAtMost(k);
    InTransitAppend(w.channel, FramesOf(s.ref, CompletionSends(s)), s.ref);
    InTransitOf(s.ref, CompletionSends(s), s.ref);
    if s.phase.InFlight? {
      CompletionSendsNext(s);
    }
    Regroup(InTransit(w.channel, s.ref), CompletionSends(s), Remaining(Completed(s)));
  }

  lemma Regroup(a: seq<string>, b: seq<string>, c: seq<string>)
    ensures (a + b) + c == a + (b + c)
  {
  }

  lemma CompleteKeepsOwn(w: World, k: nat)
    requires k in w.senders && SenderOk(w.senders[k]) && TransferOk(w, k)
    requires w.senders[k].ref == R.RefOf(k) && w.senders[k].phase != Idle
    ensures TransferOk(Step(w, Complete(k)), k)
  {
    CompleteKeepsOwed(w, k);
  }

  /** Another writer under the same id is one whose time is over, and it has nothing to send any more. */
  lemma CompleteKeepsOthers(w: World, j: nat, k: nat)
    requires SendersOk(w) && j in w.senders && k in w.senders && j != k && TransferOk(w, k)
    requires w.client.issued > j + PERIOD ==> Remaining(w.senders[j]) == []
    ensures TransferOk(Step(w, Complete(j)), k)
  {
    var w' := Step(w, Complete(j));
    if w.client.issued <= k + PERIOD {
      OthersInTransit(w, j, k);
    }
    TransferUntouched(w, w', k);
  }

  lemma OthersInTransit(w: World, j: nat, k: nat)
    requires SendersOk(w) && j in w.senders && k in w.senders && j != k
    requires w.client.issued <= k + PERIOD && (w.client.issued > j + PERIOD ==> Remaining(w.senders[j]) == [])
    ensures InTransit(Step(w, Complete(j)).channel, R.RefOf(k)) == InTransit(w.channel, R.RefOf(k))
  {
    var s := w.senders[j];
    RefAtMost(j);
    RefAtMost(k);
    InTransitAppend(w.channel, FramesOf(s.ref, CompletionSends(s)), R.RefOf(k));
    InTransitOf(s.ref, CompletionSends(s), R.RefOf(k));
    if R.RefOf(j) == R.RefOf(k) {
      if w.client.issued <= j + PERIOD {
        R.RefsDistinct(if j < k then j else k, if j < k then k else j);
      }
      assert CompletionSends(s) == [];
    }
  }

  lemma NextOwed(all: seq<string>, p: string, rest: seq<string>)
    requires |rest| + 1 <= |all| && all[|all| - (|rest| + 1)..] == [p] + rest
    ensures var d := |all| - (|rest| + 1);
      all[d] == p && all[d + 1..] == rest && all[..d + 1] == all[..d] + [p]
  {
    var d := |all| - (|rest| + 1);
    assert all[d..][1..] == rest;
  }

  lemma DeliverKeeps(w: World, k: nat)
    requires R.TableOk(w.client) && ChannelOk(w) && w.channel != []
    requires k in w.senders && SenderOk(w.senders[k]) && k < w.client.issued && TransferOk(w, k)
    ensures TransferOk(Step(w, Deliver), k)
  {
    var c, c', file := w.client, Step(w, Deliver).client, w.senders[k].file;
    var ref, data := RefIn(w.channel[0]), PayloadOf(w.channel[0]);
    R.BinaryEffect(c, ref, data, k);
    OwedAfterDeliver(w, k);
    if R.Pending(c, k) && ref == R.RefOf(k) {
      DeliverOwn(c, k, file, data, Owed(Step(w, Deliver), k));
    } else {
      BinaryQuiet(c, ref, data, k, file);
      if c.issued <= k + PERIOD && ref == R.RefOf(k) {
      } else {
        TransferUntouched(w, Step(w, Deliver), k);
      }
    }
  }

  lemma OwedAfterDeliver(w: World, k: nat)
    requires w.channel != [] && k in w.senders && SenderOk(w.senders[k])
    ensures RefIn(w.channel[0]) == R.RefOf(k) ==> Owed(w, k) == [PayloadOf(w.channel[0])] + Owed(Step(w, Deliver), k)
    ensures RefIn(w.channel[0]) != R.RefOf(k) ==>
      InTransit(Step(w, Deliver).channel, R.RefOf(k)) == InTransit(w.channel, R.RefOf(k))
  {
    Regroup([PayloadOf(w.channel[0])], InTransit(w.channel[1..], R.RefOf(k)), Remaining(w.senders[k]));
  }

  lemma DeliverOwn(c: Client, k: nat, file: string, data: string, owed: seq<string>)
    requires R.TableOk(c) && R.Pending(c, k) && LogOk(c.log, k, file)
    requires Progress(c, k, Payloads(file, 0), [data] + owed)
    ensures var c' := BinaryArrived(c, Header(R.RefOf(k)) + data);
      LogOk(c'.log, k, file) && Progress(c', k, Payloads(file, 0), owed)
  {
    RefAtMost(k);
    R.BinaryReads(c, R.RefOf(k), data);
    if data == "" {
      DeliverEnd(c, k, file, owed);
    } else {
      DeliverData(c, k, file, data, owed);
    }
  }

  lemma DeliverEnd(c: Client, k: nat, file: string, owed: seq<string>)
    requires R.Pending(c, k) && LogOk(c.log, k, file) && Progress(c, k, Payloads(file, 0), [""] + owed)
    ensures var c' := Settled(c, R.RefOf(k), TransferDone);
      LogOk(c'.log, k, file) && Progress(c', k, Payloads(file, 0), owed)
  {
    NextOwed(Payloads(file, 0), "", owed);
    WholeBeforeEnd(file, |Payloads(file, 0)| - |[""] + owed|);
    LogGrows(c.log, Settle(k, TransferDone), k, file);
  }

  lemma WholeBeforeEnd(file: string, d: nat)
    requires d < |Payloads(file, 0)| && Payloads(file, 0)[d] == ""
    requires forall i :: 0 <= i < d ==> Payloads(file, 0)[i] != ""
    ensures Joined(Payloads(file, 0)[..d]) == file
  {
    PayloadsCarryFile(file, 0, d);
    assert file[0..] == file;
  }

  lemma DeliverData(c: Client, k: nat, file: string, data: string, owed: seq<string>)
    requires R.Pending(c, k) && LogOk(c.log, k, file) && Progress(c, k, Payloads(file, 0), [data] + owed) && data != ""
    ensures var c' := c.(log := c.log + [Bytes(k, data)]);
      LogOk(c'.log, k, file) && Progress(c', k, Payloads(file, 0), owed)
  {
    var all := Payloads(file, 0);
    NextOwed(all, data, owed);
    JoinedAppend(all[..|all| - |owed| - 1], data);
    LogGrows(c.log, Bytes(k, data), k, file);
  }

  lemma OtherQuiet(w: World, event: R.Event, k: nat, file: string)
    requires R.TableOk(w.client) && Enabled(w, Other(event)) && !event.Request?
    requires k in w.senders || k == w.client.issued
    ensures Quiet(w.client, R.Step(w.client, event), k, file)
  {
    var c := w.client;
    match event
    case Reply(j, msg, hooks) =>
      if R.Pending(c, k) && R.RefOf(j) == R.RefOf(k) {
        assert R.EntryOk(c, R.RefOf(k), k);
        R.RefsDistinct(if j < k then j else k, if j < k then k else j);
      }
      DispatchQuiet(c, msg, hooks, k, file);
    case Push(msg, hooks) => DispatchQuiet(c, msg, hooks, k, file);
    case Sweep(_, order) => SweepQuiet(c, order, k, file);
  }

  lemma {:induction false} LogAlwaysBelow(trace: Trace)
    requires Valid(trace)
    ensures LogBelow(Run(trace).client.log, Run(trace).client.issued)
  {
    match trace
    case Begin =>
    case Then(before, e) =>
      var w := Run(before);
      LogAlwaysBelow(before);
      SameClient(before);
      R.TableAlwaysOk(ClientTrace(before));
      assert !R.Pending(w.client, w.client.issued);
      match e {
        case Deliver => BinaryQuiet(w.client, RefIn(w.channel[0]), PayloadOf(w.channel[0]), w.client.issued, "");
        case Other(event) =>
          if !event.Request? {
            OtherQuiet(w, event, w.client.issued, "");
          }
        case _ =>
      }
  }

  /** Every transfer is in order in every reachable state. */
  lemma {:induction false} TransferAlwaysOk(trace: Trace, k: nat)
    requires Valid(trace) && k in Run(trace).senders
    ensures k < Run(trace).client.issued && SenderOk(Run(trace).senders[k]) && TransferOk(Run(trace), k)
  {
    var before, e := trace.before, trace.event;
    var w := Run(before);
    SameClient(before);
    SameClient(trace);
    R.TableAlwaysOk(ClientTrace(before));
    LogAlwaysBelow(before);
    if e.Load? && k == w.client.issued {
      TransferStarts(w, e.file, e.now);
    } else {
      TransferAlwaysOk(before, k);
      match e {
        case Load(file, now) =>
          RefAtMost(w.client.issued);
          var s := Fresh(R.RefOf(w.client.issued), file);
          RefAtMost(k);
          InTransitAppend(w.channel, FramesOf(s.ref, [NextRead(s)]), R.RefOf(k));
          InTransitOf(s.ref, [NextRead(s)], R.RefOf(k));
          RequestKeeps(w, Run(trace), now, k);
        case Complete(j) =>
          TransferAlwaysOk(before, j);
          if j == k {
            CompleteKeepsOwn(w, k);
          } else {
            CompleteKeepsOthers(w, j, k);
          }
        case Deliver => DeliverKeeps(w, k);
        case Other(event) =>
          if event.Request? {
            RequestKeeps(w, Run(trace), event.now, k);
          } else {
            OtherQuiet(w, event, k, w.senders[k].file);
            R.StepEffect(w.client, event, k);
            TransferUntouched(w, Run(trace), k);
          }
      }
    }
  }

  // ---- What the caller gets -------------------------------------------------------------------------------------

  /** A load's promise settles at most once, and at the moment it resolves the collected bytes are the file. */
  lemma {:induction false} ResolvesWithTheFile(trace: Trace, k: nat, i: nat)
    requires Valid(trace) && k in Run(trace).senders
    ensures var log := Run(trace).client.log;
      && R.Settlements(log, k) <= 1
      && (i < |log| && log[i] == Settle(k, TransferDone) ==> Received(log[..i], k) == Run(trace).senders[k].file)
  {
    TransferAlwaysOk(trace, k);
    SameClient(trace);
    R.SettledAtMostOnce(ClientTrace(trace), k);
  }

  /** All frames of transfer k are sent and received. A request that takes over its id tells the same, since it would
      not have done so before. */
  ghost predicate FullyDelivered(w: World, k: nat) {
    k in w.senders && SenderOk(w.senders[k]) && (Owed(w, k) == [] || w.client.issued > k + PERIOD)
  }

  /** Once its frames are all sent and received, the promise has settled exactly once, whatever else goes on and however
      long ago that was: resolved exactly if no sweep came too late for it, and else rejected. The second bare header of
      a file that fills its last buffer changes nothing. */
  lemma {:induction false} ResolvesExactlyOnce(trace: Trace, k: nat)
    requires Valid(trace) && FullyDelivered(Run(trace), k)
    ensures var log := Run(trace).client.log;
      && R.Settlements(log, k) == 1
      && (Settle(k, TransferDone) in log <==> R.NoLateSweep(ClientTrace(trace), k))
      && (Settle(k, TimedOut) in log <==> !R.NoLateSweep(ClientTrace(trace), k))
  {
    var log := Run(trace).client.log;
    DeliveredIsSettled(trace, k);
    TransferAlwaysOk(trace, k);
    SameClient(trace);
    R.EverTimedOutIff(ClientTrace(trace), k);
    var i := FindSettlement(log, k);
    assert log[i] == Settle(k, TransferDone) || log[i] == Settle(k, TimedOut);
    if Settle(k, TransferDone) in log && Settle(k, TimedOut) in log {
      R.SettledTwice(log, TransferDone, TimedOut, k);
    }
  }

  lemma {:induction false} DeliveredIsSettled(trace: Trace, k: nat)
    requires Valid(trace) && FullyDelivered(Run(trace), k)
    ensures R.Settlements(Run(trace).client.log, k) == 1
  {
    TransferAlwaysOk(trace, k);
    SameClient(trace);
    R.SettledAtMostOnce(ClientTrace(trace), k);
    if Run(trace).client.issued <= k + PERIOD {
      PayloadShape(Run(trace).senders[k].file, 0);
      assert !R.Pending(Run(trace).client, k);
    } else {
      DeliveredBefore(trace, k);
      DeliveredIsSettled(trace.before, k);
      SettlementsStay(trace, k);
    }
  }

  /** When a request takes over the id, the transfer is over, and it was before. */
  lemma {:induction false} DeliveredBefore(trace: Trace, k: nat)
    requires Valid(trace) && k in Run(trace).senders && Run(trace).client.issued > k + PERIOD
    ensures trace.Then? && FullyDelivered(Run(trace.before), k)
  {
    SameClient(trace.before);
    R.TableAlwaysOk(ClientTrace(trace.before));
    IssuesAtMostOne(Run(trace.before), trace.event);
    OnlyDeliveredIsTakenOver(Run(trace.before), trace.event, k);
  }

  lemma OnlyDeliveredIsTakenOver(w: World, e: Event, k: nat)
    requires SendersOk(w) && Enabled(w, e) && k in Step(w, e).senders && Step(w, e).client.issued > k + PERIOD
    requires Step(w, e).client.issued == w.client.issued + if e.Load? || (e.Other? && e.event.Request?) then 1 else 0
    ensures FullyDelivered(w, k)
  {
    assert k in w.senders;
    if w.client.issued <= k + PERIOD {
      R.RefRepeats(k);
      assert R.RefOf(w.client.issued) == R.RefOf(k);
      assert IdleRef(w, w.senders[k].ref);
    }
  }

  lemma IssuesAtMostOne(w: World, e: Event)
    requires R.TableOk(w.client) && ChannelOk(w) && Enabled(w, e)
    ensures Step(w, e).client.issued == w.client.issued + if e.Load? || (e.Other? && e.event.Request?) then 1 else 0
  {
    match e
    case Deliver =>
      RefAtMost(RefIn(w.channel[0]));
      R.BinaryEffect(w.client, RefIn(w.channel[0]), PayloadOf(w.channel[0]), 0);
    case Other(event) => R.StepEffect(w.client, event, 0);
    case _ =>
  }

  lemma SettlementsStay(trace: Trace, k: nat)
    requires Valid(trace) && trace.Then?
    ensures R.Settlements(Run(trace.before).client.log, k) <= R.Settlements(Run(trace).client.log, k)
  {
    SameClient(trace.before);
    SameClient(trace);
    var late, early := ClientTrace(trace), ClientTrace(trace.before);
    if late != early {
      assert late.Then? && late.before == early;
      R.TableAlwaysOk(early);
      R.StepEffect(R.Run(early), late.event, k);
    }
  }

  lemma {:induction false} ContinuesOn(last: Trace, later: Trace, trace: Trace)
    requires Continues(last, later) && Continues(later, trace)
    ensures Continues(last, trace)
  {
    if last != later {
      ContinuesOn(last.before, later, trace);
    }
  }

  /** Writer k gets all its callbacks. */
  lemma {:induction false} FinishWriting(trace: Trace, k: nat) returns (later: Trace)
    requires Valid(trace) && k in Run(trace).senders && SenderOk(Run(trace).senders[k])
    ensures Valid(later) && Continues(later, trace) && k in Run(later).senders && Run(later).senders[k].phase == Idle
    ensures ClientTrace(later) == ClientTrace(trace)
    decreases |Remaining(Run(trace).senders[k])| + if Run(trace).senders[k].phase == Idle then 0 else 1
  {
    var s := Run(trace).senders[k];
    if s.phase == Idle {
      later := trace;
    } else {
      if s.phase.InFlight? {
        CompletionSendsNext(s);
      }
      var next := Then(trace, Complete(k));
      later := FinishWriting(next, k);
      ContinuesOn(later, next, trace);
    }
  }

  /** Everything in flight arrives. */
  lemma {:induction false} DrainChannel(trace: Trace, k: nat) returns (later: Trace)
    requires Valid(trace)
    ensures Valid(later) && Continues(later, trace) && Run(later).channel == []
    ensures Run(later).senders == Run(trace).senders
    ensures R.NoLateSweep(ClientTrace(later), k) == R.NoLateSweep(ClientTrace(trace), k)
    decreases |Run(trace).channel|
  {
    if Run(trace).channel == [] {
      later := trace;
    } else {
      var next := Then(trace, Deliver);
      later := DrainChannel(next, k);
      ContinuesOn(later, next, trace);
    }
  }

  /** Nothing stands in the way of a transfer: whatever happened so far, the run can go on until it is fully delivered,
      and then its promise resolves, unless a sweep had rejected it already. */
  lemma {:induction false} CanBeDelivered(trace: Trace, k: nat) returns (later: Trace)
    requires Valid(trace) && k in Run(trace).senders
    ensures Valid(later) && Continues(later, trace) && FullyDelivered(Run(later), k)
    ensures Settle(k, TransferDone) in Run(later).client.log <==> R.NoLateSweep(ClientTrace(trace), k)
  {
    TransferAlwaysOk(trace, k);
    var written := FinishWriting(trace, k);
    later := DrainChannel(written, k);
    ContinuesOn(later, written, trace);
    TransferAlwaysOk(later, k);
    assert Remaining(Run(later).senders[k]) == [];
    ResolvesExactlyOnce(later, k);
  }

  lemma {:induction false} FindSettlement(log: seq<Effect>, k: nat) returns (i: nat)
    requires R.Settlements(log, k) > 0
    ensures i < |log| && log[i].Settle? && log[i].serial == k
    decreases |log|
  {
    i := |log| - 1;
    if !(log[i].Settle? && log[i].serial == k) {
      i := FindSettlement(log[..i], k);
    }
  }

  /** The payloads writer k has written so far. */
  function SentBy(trace: Trace, k: nat): seq<string> {
    match trace
    case Begin => []
    case Then(before, e) =>
      var w := Run(before);
      match e
      case Load(file, _) => if k == w.client.issued then [NextRead(Fresh(0, file))] else SentBy(before, k)
      case Complete(j) =>
        if j == k && k in w.senders && SenderOk(w.senders[k]) then SentBy(before, k) + CompletionSends(w.senders[k])
        else SentBy(before, k)
      case _ => SentBy(before, k)
  }

  /** Whatever else goes on, a writer sends the payloads of its file in order and stops after the last. */
  lemma {:induction false} WriterSendsItsFile(trace: Trace, k: nat)
    requires Valid(trace) && k in Run(trace).senders
    ensures SenderOk(Run(trace).senders[k])
    ensures SentBy(trace, k) + Remaining(Run(trace).senders[k]) == Payloads(Run(trace).senders[k].file, 0)
    ensures |SentBy(trace, k)| <= |Run(trace).senders[k].file| / 4096 + 2
  {
    var before, e := trace.before, trace.event;
    var w := Run(before);
    SameClient(before);
    if e.Load? && k == w.client.issued {
      WriteSendsNext(Fresh(R.RefOf(k), e.file));
    } else {
      WriterSendsItsFile(before, k);
      if e == Complete(k) && w.senders[k].phase.InFlight? {
        CompletionSendsNext(w.senders[k]);
        Regroup(SentBy(before, k), CompletionSends(w.senders[k]), Remaining(Completed(w.senders[k])));
      }
    }
    PayloadShape(Run(trace).senders[k].file, 0);
  }
}
