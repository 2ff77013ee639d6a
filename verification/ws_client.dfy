/** The frontend's end of the connection (app/src/backend/implementations/ws_impl.js): requests get a wrapping id,
    replies and binary frames find their request through it, and a periodic sweep rejects what waited too long.
 */
module WebSocketClients {
  import opened Wrappers
  import opened TextFrames

  /** Ids run through 0..1000001 and start over. */
  const PERIOD: nat := 1_000_002

  /** replyTimeoutSeconds, in milliseconds. */
  const REPLY_TIMEOUT: int := 30_000

  /** The promise of the serial-th request ever issued, and when it was issued. */
  datatype Waiter = Waiter(serial: nat, date: int)

  datatype Outcome = Replied | Failed | TransferDone | TimedOut

  /** What the client does to its callers, in order. */
  datatype Effect =
    | Settle(serial: nat, outcome: Outcome)
    | Bytes(serial: nat, data: string)
    | Hook(id: nat)
    | Unclaimed
    | Complaint

  /** What the dispatcher looks at in a parsed message. */
  datatype Incoming = Incoming(ref: Option<int>, error: bool, event: string)

  /** What JSON.parse makes of a text: null, which has no fields to look at, or anything else. */
  datatype Value = Null | Message(message: Incoming)

  type Decoder = string -> Option<Value>

  datatype Client = Client(replyId: nat, replyWaiter: map<int, Waiter>, textBuffer: string, issued: nat,
                           log: seq<Effect>)

  const IDLE := Client(0, map[], "", 0, [])

  // ---- What each handler does -----------------------------------------------------------------------------------

  function Requested(c: Client, now: int): Client {
    c.(replyId := if c.replyId > 1_000_000 then 0 else c.replyId + 1,
       replyWaiter := c.replyWaiter[c.replyId := Waiter(c.issued, now)],
       issued := c.issued + 1)
  }

  function Settled(c: Client, ref: int, outcome: Outcome): Client {
    if ref !in c.replyWaiter then c
    else c.(replyWaiter := c.replyWaiter - {ref}, log := c.log + [Settle(c.replyWaiter[ref].serial, outcome)])
  }

  predicate Expired(w: Waiter, now: int) {
    now - w.date > REPLY_TIMEOUT
  }

  /** The sweep rejects one request after the other, in some order. */
  function SweptIn(c: Client, order: seq<int>): Client {
    if order == [] then c
    else
      var before := SweptIn(c, order[..|order| - 1]);
      Settled(before.(log := before.log + [Complaint]), order[|order| - 1], TimedOut)
  }

  /** `order` lists the expired requests, each once. */
  ghost predicate ListsExpired(c: Client, now: int, order: seq<int>) {
    && (forall i, j :: 0 <= i < j < |order| ==> order[i] != order[j])
    && (forall r :: r in order <==> r in c.replyWaiter && Expired(c.replyWaiter[r], now))
  }

  /** The effects of calling every hook of an event, in order. */
  function HookCalls(hooks: seq<nat>): (calls: seq<Effect>)
    ensures |calls| == |hooks| && forall i :: 0 <= i < |hooks| ==> calls[i] == Hook(hooks[i])
  {
    seq(|hooks|, i requires 0 <= i < |hooks| => Hook(hooks[i]))
  }

  /** A reply goes to its request; anything else to the hooks of its event, or else to onMessage. */
  function Dispatched(c: Client, msg: Incoming, hooks: map<string, seq<nat>>): Client {
    if msg.ref.Some? && msg.ref.value in c.replyWaiter then
      Settled(c, msg.ref.value, if msg.error then Failed else Replied)
    else if msg.event in hooks then c.(log := c.log + HookCalls(hooks[msg.event]))
    else c.(log := c.log + [Unclaimed])
  }

  /** Reading a field of null throws, which is caught and reported. */
  function Handled(c: Client, value: Value, hooks: map<string, seq<nat>>): Client {
    match value
    case Null => c.(log := c.log + [Complaint])
    case Message(msg) => Dispatched(c, msg, hooks)
  }

  function Accepts(decode: Decoder): string -> bool {
    s => decode(s).Some?
  }

  function TextArrived(c: Client, chunk: string, hooks: map<string, seq<nat>>, decode: Decoder): Client {
    var buffer := c.textBuffer + chunk;
    if chunk == "" then c
    else
      match ParseData(buffer, Accepts(decode))
      case Waiting => c.(textBuffer := buffer)
      case Cut(payload, rest) => Handled(c.(textBuffer := rest), decode(payload).value, hooks)
      case _ => c.(textBuffer := buffer, log := c.log + [Complaint])
  }

  /** A frame of ten bytes is all header and completes the transfer. Data goes to the request's own callback. (The code
      then refreshes a field named `data`, so the `date` the sweep looks at stays as it was.) */
  function BinaryArrived(c: Client, frame: string): Client {
    match ParseInt(Substr(frame, 0, 10))
    case None => c
    case Some(ref) =>
      if ref !in c.replyWaiter then c
      else if |frame| != 10 then c.(log := c.log + [Bytes(c.replyWaiter[ref].serial, Substr(frame, 10, |frame| - 10))])
      else Settled(c, ref, TransferDone)
  }

  /** The client cuts its buffer as the plain receiver of text frames does, and handles each payload it cuts off. When
      it cuts nothing off, nothing happens, except that it complains if there is no number or the payload is rejected.
      */
  lemma TextArrivesAsFrames(c: Client, r: Receiver, chunk: string, hooks: map<string, seq<nat>>, decode: Decoder)
    requires r.buffer == c.textBuffer
    ensures var c', r' := TextArrived(c, chunk, hooks, decode), OnText(r, chunk, Accepts(decode));
      var parsing := ParseData(c.textBuffer + chunk, Accepts(decode));
      var complains := chunk != "" && (parsing == NoNumber || parsing == Unparsable);
      && c'.textBuffer == r'.buffer
      && (r'.delivered == r.delivered ==>
            c' == c.(textBuffer := r'.buffer, log := if complains then c.log + [Complaint] else c.log))
      && (r'.delivered != r.delivered ==>
            && r'.delivered == r.delivered + [r'.delivered[|r'.delivered| - 1]]
            && decode(r'.delivered[|r'.delivered| - 1]).Some?
            && var value := decode(r'.delivered[|r'.delivered| - 1]).value;
               c' == if value.Null? then c.(textBuffer := r'.buffer, log := c.log + [Complaint])
                     else Dispatched(c.(textBuffer := r'.buffer), value.message, hooks))
  {
    var r' := OnText(r, chunk, Accepts(decode));
    if r'.delivered == r.delivered {
      assert |r'.delivered| == |r.delivered|;
      assert chunk == "" || !ParseData(c.textBuffer + chunk, Accepts(decode)).Cut?;
    }
  }

  lemma HasMember(refs: set<int>)
    ensures refs == {} || exists r :: r in refs
  {
    if forall r :: r !in refs {
      assert refs == {};
    }
  }

  // ---- The class ------------------------------------------------------------------------------------------------

  class WebSocketClient {
    var replyId: nat
    var replyWaiter: map<int, Waiter>
    var textBuffer: string
    var eventHooks: map<string, seq<nat>>
    var issued: nat
    var log: seq<Effect>

    function View(): Client
      reads this
    {
      Client(replyId, replyWaiter, textBuffer, issued, log)
    }

    constructor ()
      ensures View() == IDLE && eventHooks == map[]
    {
      replyId, replyWaiter, textBuffer, eventHooks, issued, log := 0, map[], "", map[], 0, [];
    }

    /** Nothing is sent unless the socket is open. `ref` goes into the message. */
    method WriteMessage(open: bool, now: int) returns (ref: nat, serial: nat)
      modifies this
      ensures eventHooks == old(eventHooks)
      ensures View() == if open then Requested(old(View()), now) else old(View())
      ensures open ==>
        ref == old(replyId) && serial == old(issued) && ref in replyWaiter && replyWaiter[ref].serial == serial
    {
      ref, serial := replyId, issued;
      if !open {
        return;
      }
      replyId := replyId + 1;
      if ref > 1_000_000 {
        replyId := 0;
      }
      replyWaiter := replyWaiter[ref := Waiter(serial, now)];
      issued := issued + 1;
    }

    /** The timer's loop over the waiting requests. */
    method Sweep(now: int) returns (ghost order: seq<int>)
      modifies this`replyWaiter, this`log
      ensures ListsExpired(old(View()), now, order)
      ensures View() == SweptIn(old(View()), order)
    {
      order := [];
      var todo := replyWaiter.Keys;
      while todo != {}
        invariant todo <= old(replyWaiter).Keys
        invariant View() == SweptIn(old(View()), order)
        invariant forall r :: r in replyWaiter ==> r in old(replyWaiter) && replyWaiter[r] == old(replyWaiter)[r]
        invariant forall r :: r in old(replyWaiter) ==> r in replyWaiter || r in order
        invariant forall r :: r in order <==> r in old(replyWaiter) && r !in todo && Expired(old(replyWaiter)[r], now)
        invariant forall i, j :: 0 <= i < j < |order| ==> order[i] != order[j]
        decreases |todo|
      {
        HasMember(todo);
        var i :| i in todo;
        todo := todo - {i};
        if Expired(replyWaiter[i], now) {
          log := log + [Complaint];
          log := log + [Settle(replyWaiter[i].serial, TimedOut)];
          replyWaiter := replyWaiter - {i};
          assert (order + [i])[..|order|] == order;
          order := order + [i];
        }
      }
    }

    method OnText(chunk: string, decode: Decoder)
      modifies this`textBuffer, this`replyWaiter, this`log
      ensures View() == TextArrived(old(View()), chunk, eventHooks, decode)
    {
      if chunk == "" {
        return;
      }
      textBuffer := textBuffer + chunk;
      var size := ParseInt(Substr(textBuffer, 0, 10));
      if size == None {
        log := log + [Complaint];
        return;
      }
      if |textBuffer| >= size.value + 11 {
        var payload := Substr(textBuffer, 11, size.value);
        var json := decode(payload);
        if payload == "" || json == None {
          log := log + [Complaint];
          return;
        }
        textBuffer := textBuffer[11 + size.value..];
        if json.value == Null {
          log := log + [Complaint];
          return;
        }
        Dispatch(json.value.message);
      }
    }

    method Dispatch(json: Incoming)
      modifies this`replyWaiter, this`log
      ensures View() == Dispatched(old(View()), json, eventHooks)
    {
      if json.ref.Some? && json.ref.value in replyWaiter {
        var ref := json.ref.value;
        log := log + [Settle(replyWaiter[ref].serial, if json.error then Failed else Replied)];
        replyWaiter := replyWaiter - {ref};
        return;
      }
      if json.event in eventHooks {
        var hooks := eventHooks[json.event];
        ghost var was := log;
        for i := 0 to |hooks|
          invariant replyWaiter == old(replyWaiter) && log == was + HookCalls(hooks)[..i]
        {
          log := log + [Hook(hooks[i])];
        }
        assert HookCalls(hooks)[..|hooks|] == HookCalls(hooks);
        return;
      }
      log := log + [Unclaimed];
    }

    method OnBinary(frame: string)
      modifies this`replyWaiter, this`log
      ensures View() == BinaryArrived(old(View()), frame)
    {
      var ref := ParseInt(Substr(frame, 0, 10));
      if ref.Some? && ref.value in replyWaiter {
        var repl := replyWaiter[ref.value];
        if |frame| != 10 {
          log := log + [Bytes(repl.serial, Substr(frame, 10, |frame| - 10))];
        } else {
          log := log + [Settle(repl.serial, TransferDone)];
          replyWaiter := replyWaiter - {ref.value};
        }
      }
    }
  }
}
