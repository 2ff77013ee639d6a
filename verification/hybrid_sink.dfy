/** The sink for uploads that carry JSON and data in one body (worker/hybrid_read_sink.cpp): ten characters of
    hexadecimal length, a bar, so many characters of JSON, then data. Chunks may end anywhere.
 */
module HybridSinks {
  import opened Wrappers
  import opened TextFrames
  import P = StreamParsers

  /** The states of the automaton, and one for a write left by an exception of std::stoll, after which nothing more
      is said about the sink. */
  datatype Phase =
    | Initial | SizeComplete | SeparatorComplete | JsonComplete | DataPhase | ExpectationFailure
    | Threw

  datatype Call = OnJson(text: string) | OnData(data: string) | OnFailure

  datatype Sink = Sink(phase: Phase, aux: string, jsonSize: nat, contentLength: nat, log: seq<Call>)

  const SIZE_LIMIT: nat := 0x1_0000_0000_0000_0000

  /** std::stoll in base 16: leading space, a sign and "0x" are allowed. None when it throws invalid_argument. */
  function StollHex(s: string): Option<int> {
    var t := P.Strip(s);
    var negative := t != [] && t[0] == '-';
    var u := if t != [] && (t[0] == '-' || t[0] == '+') then t[1..] else t;
    match StollNumber(u)
    case None => None
    case Some(value) =>
      var signed: int := value;
      Some(if negative then -signed else signed)
  }

  /** What follows the sign. A prefix without a digit behind it is no prefix. */
  function StollNumber(u: string): Option<nat> {
    var prefixed := |u| >= 3 && u[0] == '0' && (u[1] == 'x' || u[1] == 'X') && DigitValue(u[2]) < 16;
    var digits := if prefixed then u[2..] else u;
    var count := DigitCount(digits, 16);
    if count == 0 then None else Some(Value(digits[..count], 16))
  }

  /** std::stoll in base 16 skips white space, takes a sign, then hexadecimal digits with or without "0x" in front, and
      ignores whatever follows the last of them. */
  lemma {:induction false} StollReads(lead: string, sign: string, prefix: string, digits: string, tail: string)
    requires (forall c :: c in lead ==> c as int == 32 || 9 <= c as int <= 13) && sign in ["", "+", "-"]
    requires IsStollNumber(prefix, digits, tail)
    ensures var value: int := Value(digits, 16);
      StollHex(lead + (sign + (prefix + (digits + tail)))) == Some(if sign == "-" then -value else value)
  {
    var number := prefix + (digits + tail);
    StollNumberReads(prefix, digits, tail);
    NumberStarts(prefix, digits, tail);
    SignGoes(sign, number);
    P.StripIs(lead, sign + number);
  }

  predicate IsStollNumber(prefix: string, digits: string, tail: string) {
    && prefix in ["", "0x", "0X"]
    && digits != "" && (forall c :: c in digits ==> DigitValue(c) < 16) && (tail != "" ==> DigitValue(tail[0]) >= 16)
    && (prefix == "" && digits == "0" && |tail| > 1 && (tail[0] == 'x' || tail[0] == 'X') ==> DigitValue(tail[1]) >= 16)
  }

  lemma StollNumberReads(prefix: string, digits: string, tail: string)
    requires IsStollNumber(prefix, digits, tail)
    ensures StollNumber(prefix + (digits + tail)) == Some(Value(digits, 16))
  {
    DigitsAhead(digits, tail, 16);
    assert (digits + tail)[..|digits|] == digits && digits[0] in digits;
    if prefix == "" {
      assert prefix + (digits + tail) == digits + tail;
      NoPrefix(digits, tail);
    } else {
    }
  }

  lemma NoPrefix(digits: string, tail: string)
    requires IsStollNumber("", digits, tail)
    ensures var u := digits + tail;
      !(|u| >= 3 && u[0] == '0' && (u[1] == 'x' || u[1] == 'X') && DigitValue(u[2]) < 16)
  {
    var u := digits + tail;
    if |digits| > 1 {
      assert u[1] == digits[1] && digits[1] in digits;
    } else if |tail| > 1 {
      assert u[0] == digits[0] && u[1] == tail[0] && u[2] == tail[1] && digits == [digits[0]];
    }
  }

  /** The header that the other side's frames carry is one the sink reads. */
  lemma StollReadsHeader(n: nat)
    requires n < 0x1_0000_0000
    ensures |Header(n)| == 10 && StollHex(Header(n)) == Some(n)
  {
    HeaderDigits(n);
    assert Hex(n, 8)[..8] == Hex(n, 8);
  }

  // ---- The automaton --------------------------------------------------------------------------------------------

  function EnterSizeComplete(s: Sink): Sink
    requires |s.aux| >= 10
  {
    match StollHex(s.aux[..10])
    case None => s.(phase := Threw)
    case Some(size) =>
      var jsonSize := size % SIZE_LIMIT;
      s.(phase := SizeComplete, jsonSize := jsonSize, aux := s.aux[10..],
         log := if (jsonSize + 11) % SIZE_LIMIT > s.contentLength then s.log + [OnFailure] else s.log)
  }

  function EnterJsonComplete(s: Sink, accepts: string -> bool): Sink
    requires |s.aux| >= s.jsonSize
  {
    if !accepts(s.aux[..s.jsonSize]) then s.(phase := JsonComplete, log := s.log + [OnFailure])
    else
      s.(phase := JsonComplete, aux := "",
         log := s.log + [OnJson(s.aux[..s.jsonSize])]
                + if |s.aux| > s.jsonSize then [OnData(s.aux[s.jsonSize..])] else [])
  }

  /** advance(): take the enabled transition, if there is one, and run the action of the state it leads to. */
  function Advanced(s: Sink, accepts: string -> bool): Option<Sink> {
    match s.phase
    case Initial => if |s.aux| >= 10 then Some(EnterSizeComplete(s)) else None
    case SizeComplete =>
      if s.aux == "" then None
      else if s.aux[0] == '|' then Some(s.(phase := SeparatorComplete, aux := s.aux[1..]))
      else Some(s.(phase := ExpectationFailure, log := s.log + [OnFailure]))
    case SeparatorComplete => if |s.aux| >= s.jsonSize then Some(EnterJsonComplete(s, accepts)) else None
    case JsonComplete => Some(s.(phase := DataPhase))
    case _ => None
  }

  function StepsLeft(phase: Phase): nat {
    match phase
    case Initial => 4
    case SizeComplete => 3
    case SeparatorComplete => 2
    case JsonComplete => 1
    case _ => 0
  }

  /** advance() until it does nothing. */
  function Settle(s: Sink, accepts: string -> bool): Sink
    decreases StepsLeft(s.phase)
  {
    match Advanced(s, accepts)
    case None => s
    case Some(next) => Settle(next, accepts)
  }

  function Written(s: Sink, data: string, accepts: string -> bool): Sink {
    if s.phase == DataPhase then s.(log := s.log + [OnData(data)])
    else Settle(s.(aux := s.aux + data), accepts)
  }

  function Start(contentLength: nat): Sink {
    Sink(Initial, "", 0, contentLength, [])
  }

  class JsonDataHybridSink {
    var phase: Phase
    var auxBuffer: string
    var jsonSize: nat
    const contentLength: nat
    var log: seq<Call>

    function View(): Sink
      reads this
    {
      Sink(phase, auxBuffer, jsonSize, contentLength, log)
    }

    constructor (contentLength: nat)
      ensures View() == Start(contentLength)
    {
      phase, auxBuffer, jsonSize, this.contentLength, log := Initial, "", 0, contentLength, [];
    }

    method Advance(accepts: string -> bool) returns (didWork: bool)
      modifies this
      ensures didWork == Advanced(old(View()), accepts).Some?
      ensures View() == if didWork then Advanced(old(View()), accepts).value else old(View())
    {
      match phase
      case Initial =>
        if |auxBuffer| < 10 {
          return false;
        }
        var size := StollHex(auxBuffer[..10]);
        if size == None {
          phase := Threw;
          return true;
        }
        phase := SizeComplete;
        jsonSize := size.value % SIZE_LIMIT;
        if (jsonSize + 11) % SIZE_LIMIT > contentLength {
          log := log + [OnFailure];
        }
        auxBuffer := auxBuffer[10..];
        return true;
      case SizeComplete =>
        if auxBuffer == "" {
          return false;
        }
        if auxBuffer[0] == '|' {
          phase := SeparatorComplete;
          auxBuffer := auxBuffer[1..];
        } else {
          phase := ExpectationFailure;
          log := log + [OnFailure];
        }
        return true;
      case SeparatorComplete =>
        if |auxBuffer| < jsonSize {
          return false;
        }
        phase := JsonComplete;
        if accepts(auxBuffer[..jsonSize]) {
          log := log + [OnJson(auxBuffer[..jsonSize])];
          if |auxBuffer| > jsonSize {
            log := log + [OnData(auxBuffer[jsonSize..])];
          }
          auxBuffer := "";
        } else {
          log := log + [OnFailure];
        }
        return true;
      case JsonComplete =>
        phase := DataPhase;
        return true;
      case _ =>
        return false;
    }

    method Write(data: string, accepts: string -> bool) returns (size: nat)
      modifies this
      ensures View() == Written(old(View()), data, accepts) && size == |data|
    {
      if phase != DataPhase {
        auxBuffer := auxBuffer + data;
        var didWork := true;
        while didWork
          invariant Settle(View(), accepts) == Written(old(View()), data, accepts)
          invariant !didWork ==> Advanced(View(), accepts) == None
          decreases StepsLeft(phase), didWork
        {
          didWork := Advance(accepts);
        }
        return |data|;
      }
      log := log + [OnData(data)];
      return |data|;
    }
  }

  // ---- Uploads --------------------------------------------------------------------------------------------------

  function WriteAll(contentLength: nat, chunks: seq<string>, accepts: string -> bool): Sink {
    if chunks == [] then Start(contentLength)
    else Written(WriteAll(contentLength, chunks[..|chunks| - 1], accepts), chunks[|chunks| - 1], accepts)
  }

  /** The data handed over by a run of data callbacks. */
  function DataIn(calls: seq<Call>): string {
    if calls == [] then ""
    else DataIn(calls[..|calls| - 1]) + if calls[|calls| - 1].OnData? then calls[|calls| - 1].data else ""
  }

  ghost predicate OnlyData(calls: seq<Call>) {
    forall i :: 0 <= i < |calls| ==> calls[i].OnData?
  }

  /** A length that the sink reads from ten characters, and JSON of that length. */
  predicate WellFormed(header: string, json: string, accepts: string -> bool) {
    |header| == 10 && StollHex(header) == Some(|json|) && accepts(json) && |json| + 11 < 0x1_0000_0000_0000_0000
  }

  /** The one complaint a well-formed upload can cause: its Content-Length was too small. The sink goes on all the
      same. */
  function Complaints(json: string, contentLength: nat): seq<Call> {
    if |json| + 11 > contentLength then [OnFailure] else []
  }

  /** Where the sink stands when `arrived` has come in, which is or will be the start of a well-formed upload. */
  ghost predicate StandsAt(s: Sink, arrived: string, json: string, contentLength: nat) {
    && s.contentLength == contentLength
    && if |arrived| < 10 then s.phase == Initial && s.aux == arrived && s.log == []
       else if |arrived| < 11 + |json| then
         && s.jsonSize == |json| && s.log == Complaints(json, contentLength)
         && if |arrived| == 10 then s.phase == SizeComplete && s.aux == ""
            else s.phase == SeparatorComplete && s.aux == arrived[11..]
       else
         && s.phase == DataPhase
         && Delivered(s.log, arrived[11 + |json|..], json, contentLength)
  }

  /** One JSON callback with the JSON, then data callbacks that add up to the data, and nothing else. */
  ghost predicate Delivered(log: seq<Call>, data: string, json: string, contentLength: nat) {
    var head := Complaints(json, contentLength) + [OnJson(json)];
    head <= log && OnlyData(log[|head|..]) && DataIn(log[|head|..]) == data
  }

  ghost predicate StartsUpload(arrived: string, header: string, json: string) {
    && (|arrived| >= 10 ==> arrived[..10] == header)
    && (|arrived| > 10 ==> arrived[10] == '|')
    && (|arrived| >= 11 + |json| ==> arrived[11..11 + |json|] == json)
  }

  lemma InitialSettles(s: Sink, all: string, header: string, json: string, cl: nat, accepts: string -> bool)
    requires |header| == 10 && WellFormed(header, json, accepts) && StartsUpload(all, header, json)
    requires s == Sink(Initial, all, s.jsonSize, cl, [])
    ensures StandsAt(Settle(s, accepts), all, json, cl)
  {
    if |all| >= 10 {
      SizeIsRead(s, |json|);
      var sized := Sink(SizeComplete, all[10..], |json|, cl, Complaints(json, cl));
      assert Advanced(s, accepts) == Some(sized);
      SizedSettles(sized, all, header, json, cl, accepts);
    }
  }

  lemma SizeIsRead(s: Sink, n: nat)
    requires |s.aux| >= 10 && StollHex(s.aux[..10]) == Some(n) && n + 11 < SIZE_LIMIT && s.log == []
    ensures EnterSizeComplete(s)
         == s.(phase := SizeComplete, jsonSize := n, aux := s.aux[10..],
               log := if n + 11 > s.contentLength then [OnFailure] else [])
  {
    NoWrap(n);
    NoWrap(n + 11);
  }

  lemma NoWrap(n: nat)
    requires n < SIZE_LIMIT
    ensures n % SIZE_LIMIT == n
  {
  }

  lemma SizedSettles(s: Sink, all: string, header: string, json: string, cl: nat, accepts: string -> bool)
    requires WellFormed(header, json, accepts) && StartsUpload(all, header, json) && |all| >= 10
    requires s == Sink(SizeComplete, all[10..], |json|, cl, Complaints(json, cl))
    ensures StandsAt(Settle(s, accepts), all, json, cl)
  {
    if |all| > 10 {
      var separated := Advanced(s, accepts).value;
      assert separated == Sink(SeparatorComplete, all[11..], |json|, cl, Complaints(json, cl));
      SeparatedSettles(separated, all, header, json, cl, accepts);
    }
  }

  lemma SeparatedSettles(s: Sink, all: string, header: string, json: string, cl: nat, accepts: string -> bool)
    requires WellFormed(header, json, accepts) && StartsUpload(all, header, json) && |all| >= 11
    requires s == Sink(SeparatorComplete, all[11..], |json|, cl, Complaints(json, cl))
    ensures StandsAt(Settle(s, accepts), all, json, cl)
  {
    if |all| >= 11 + |json| {
      var complete := Advanced(s, accepts).value;
      var data := all[11 + |json|..];
      assert all[11..][..|json|] == json && all[11..][|json|..] == data;
      var head := Complaints(json, cl) + [OnJson(json)];
      var calls := if data == "" then [] else [OnData(data)];
      assert complete == Sink(JsonComplete, "", |json|, cl, head + calls);
      assert (head + calls)[|head|..] == calls;
      assert calls != [] ==> calls[..0] == [];
      var settled := complete.(phase := DataPhase);
      assert Settle(complete, accepts) == settled;
    }
  }

  lemma WriteMoves(s: Sink, arrived: string, chunk: string, header: string, json: string, cl: nat,
                   accepts: string -> bool)
    requires WellFormed(header, json, accepts) && StartsUpload(arrived + chunk, header, json)
    requires StandsAt(s, arrived, json, cl)
    ensures StandsAt(Written(s, chunk, accepts), arrived + chunk, json, cl)
  {
    var all := arrived + chunk;
    if |arrived| < 10 {
      InitialSettles(s.(aux := s.aux + chunk), all, header, json, cl, accepts);
    } else if |arrived| == 10 {
      assert all[10..] == chunk;
      SizedSettles(s.(aux := s.aux + chunk), all, header, json, cl, accepts);
    } else if |arrived| < 11 + |json| {
      assert all[11..] == arrived[11..] + chunk;
      SeparatedSettles(s.(aux := s.aux + chunk), all, header, json, cl, accepts);
    } else {
      DataFlows(s.log, arrived[11 + |json|..], chunk, json, cl);
      assert all[11 + |json|..] == arrived[11 + |json|..] + chunk;
    }
  }

  lemma DataFlows(log: seq<Call>, data: string, chunk: string, json: string, cl: nat)
    requires Delivered(log, data, json, cl)
    ensures Delivered(log + [OnData(chunk)], data + chunk, json, cl)
  {
    var n := |Complaints(json, cl)| + 1;
    assert (log + [OnData(chunk)])[n..] == log[n..] + [OnData(chunk)];
  }

  /** Whatever part of a well-formed upload has arrived, in whatever writes: before the JSON is complete nothing was
      called back (but for the complaint about Content-Length), and from then on the JSON callback ran once with exactly
      the JSON, before any data, and the data callbacks add up to exactly the data that arrived. */
  lemma {:induction false} UploadArrives(contentLength: nat, chunks: seq<string>, ahead: string, header: string,
                                         json: string, data: string, accepts: string -> bool)
    requires WellFormed(header, json, accepts)
    requires Concat(chunks) + ahead == header + "|" + json + data
    ensures StandsAt(WriteAll(contentLength, chunks, accepts), Concat(chunks), json, contentLength)
    ensures ahead == "" ==> Delivered(WriteAll(contentLength, chunks, accepts).log, data, json, contentLength)
    decreases |chunks|
  {
    var arrived := Concat(chunks);
    PrefixStartsUpload(arrived, ahead, header, json, data);
    if chunks != [] {
      var front, chunk := chunks[..|chunks| - 1], chunks[|chunks| - 1];
      assert Concat(front) + (chunk + ahead) == Concat(chunks) + ahead;
      UploadArrives(contentLength, front, chunk + ahead, header, json, data, accepts);
      WriteMoves(WriteAll(contentLength, front, accepts), Concat(front), chunk, header, json, contentLength, accepts);
    }
    if ahead == "" {
      assert arrived + ahead == arrived;
      assert arrived[11 + |json|..] == data;
    }
  }

  lemma PrefixStartsUpload(arrived: string, ahead: string, header: string, json: string, data: string)
    requires |header| == 10 && arrived + ahead == header + "|" + json + data
    ensures StartsUpload(arrived, header, json)
  {
    var all := header + "|" + json + data;
    assert forall i :: 0 <= i < |arrived| ==> arrived[i] == all[i];
    if |arrived| >= 11 + |json| {
      assert arrived[11..11 + |json|] == all[11..11 + |json|] == json;
    }
  }

  // ---- A wrong separator ----------------------------------------------------------------------------------------

  /** The complaint that a length can cause, a negative one being taken modulo 2^64. */
  function SizeComplaints(size: int, contentLength: nat): seq<Call> {
    if (size % 0x1_0000_0000_0000_0000 + 11) % 0x1_0000_0000_0000_0000 > contentLength then [OnFailure] else []
  }

  /** Where the sink stands when `arrived` has come in: past the length and one more character, it has failed. */
  ghost predicate Failing(s: Sink, arrived: string, size: int, contentLength: nat) {
    && s.contentLength == contentLength
    && if |arrived| < 10 then s.phase == Initial && s.aux == arrived && s.log == []
       else if |arrived| == 10 then s.phase == SizeComplete && s.aux == ""
         && s.log == SizeComplaints(size, contentLength)
       else s.phase == ExpectationFailure && s.log == SizeComplaints(size, contentLength) + [OnFailure]
  }

  ghost predicate StartsWrong(arrived: string, size: int) {
    && (|arrived| >= 10 ==> StollHex(arrived[..10]) == Some(size))
    && (|arrived| > 10 ==> arrived[10] != '|')
  }

  lemma SizedFails(s: Sink, more: string, size: int, cl: nat, accepts: string -> bool)
    requires more != "" ==> more[0] != '|'
    requires s.phase == SizeComplete && s.aux == more && s.contentLength == cl && s.log == SizeComplaints(size, cl)
    ensures var s' := Settle(s, accepts);
      if more == "" then s' == s
      else s' == s.(phase := ExpectationFailure, log := SizeComplaints(size, cl) + [OnFailure])
  {
    if more != "" {
      var failed := Advanced(s, accepts).value;
      assert Settle(failed, accepts) == failed;
    }
  }

  lemma WriteFails(s: Sink, arrived: string, chunk: string, size: int, cl: nat, accepts: string -> bool)
    requires StartsWrong(arrived + chunk, size) && Failing(s, arrived, size, cl)
    ensures Failing(Written(s, chunk, accepts), arrived + chunk, size, cl)
  {
    var all := arrived + chunk;
    if |all| >= 10 && |arrived| < 10 {
      var sized := EnterSizeComplete(s.(aux := all));
      assert Advanced(s.(aux := s.aux + chunk), accepts) == Some(sized);
      SizedFails(sized, all[10..], size, cl, accepts);
    } else if |arrived| == 10 {
      assert all[10..] == chunk;
      SizedFails(s.(aux := s.aux + chunk), chunk, size, cl, accepts);
    }
  }

  /** If the character after a readable length is not a bar, then however the text is divided into writes, and whatever
      follows, the sink fails at that character: there is one more failure callback, and never any JSON or data. */
  lemma {:induction false} WrongSeparatorFails(contentLength: nat, chunks: seq<string>, size: int,
                                               accepts: string -> bool)
    requires StartsWrong(Concat(chunks), size)
    ensures Failing(WriteAll(contentLength, chunks, accepts), Concat(chunks), size, contentLength)
    decreases |chunks|
  {
    if chunks != [] {
      var front, chunk := chunks[..|chunks| - 1], chunks[|chunks| - 1];
      StartsWrongBefore(Concat(front), chunk, size);
      WrongSeparatorFails(contentLength, front, size, accepts);
      WriteFails(WriteAll(contentLength, front, accepts), Concat(front), chunk, size, contentLength, accepts);
    }
  }

  lemma StartsWrongBefore(arrived: string, chunk: string, size: int)
    requires StartsWrong(arrived + chunk, size)
    ensures StartsWrong(arrived, size)
  {
    assert |arrived| >= 10 ==> (arrived + chunk)[..10] == arrived[..10];
  }

  // ---- Uploads that are not well formed otherwise -----------------------------------------------------------------

  /** The writes that came after the first n characters of the text had all come in. */
  function Later(chunks: seq<string>, n: nat): seq<string> {
    if chunks == [] then []
    else
      var front, last := chunks[..|chunks| - 1], chunks[|chunks| - 1];
      Later(front, n) + if |Concat(front)| >= n then [last] else []
  }

  function Handed(chunks: seq<string>): (calls: seq<Call>)
    ensures |calls| == |chunks| && forall i :: 0 <= i < |chunks| ==> calls[i] == OnData(chunks[i])
  {
    seq(|chunks|, i requires 0 <= i < |chunks| => OnData(chunks[i]))
  }

  /** A readable length and text of that length which is not JSON. */
  predicate Rejectable(header: string, json: string, accepts: string -> bool) {
    |header| == 10 && StollHex(header) == Some(|json|) && !accepts(json) && |json| + 11 < 0x1_0000_0000_0000_0000
  }

  /** Where the sink stands in an upload whose JSON is rejected. */
  ghost predicate Rejecting(s: Sink, arrived: string, later: seq<string>, json: string, cl: nat) {
    && s.contentLength == cl
    && if |arrived| < 10 then s.phase == Initial && s.aux == arrived && s.log == []
       else if |arrived| < 11 + |json| then
         && s.jsonSize == |json| && s.log == Complaints(json, cl)
         && if |arrived| == 10 then s.phase == SizeComplete && s.aux == ""
            else s.phase == SeparatorComplete && s.aux == arrived[11..]
       else s.phase == DataPhase && s.log == Complaints(json, cl) + [OnFailure] + Handed(later)
  }

  lemma {:induction false} RejectsInitial(s: Sink, all: string, header: string, json: string, cl: nat,
                                          accepts: string -> bool)
    requires Rejectable(header, json, accepts) && StartsUpload(all, header, json)
    requires s == Sink(Initial, all, s.jsonSize, cl, [])
    ensures Rejecting(Settle(s, accepts), all, [], json, cl)
  {
    if |all| >= 10 {
      SizeIsRead(s, |json|);
      var sized := Sink(SizeComplete, all[10..], |json|, cl, Complaints(json, cl));
      assert Advanced(s, accepts) == Some(sized);
      RejectsSized(sized, all, header, json, cl, accepts);
    }
  }

  lemma {:induction false} RejectsSized(s: Sink, all: string, header: string, json: string, cl: nat,
                                        accepts: string -> bool)
    requires Rejectable(header, json, accepts) && StartsUpload(all, header, json) && |all| >= 10
    requires s == Sink(SizeComplete, all[10..], |json|, cl, Complaints(json, cl))
    ensures Rejecting(Settle(s, accepts), all, [], json, cl)
  {
    if |all| > 10 {
      var separated := Advanced(s, accepts).value;
      assert separated == Sink(SeparatorComplete, all[11..], |json|, cl, Complaints(json, cl));
      RejectsSeparated(separated, all, header, json, cl, accepts);
    }
  }

  lemma {:induction false} RejectsSeparated(s: Sink, all: string, header: string, json: string, cl: nat,
                                            accepts: string -> bool)
    requires Rejectable(header, json, accepts) && StartsUpload(all, header, json) && |all| >= 11
    requires s == Sink(SeparatorComplete, all[11..], |json|, cl, Complaints(json, cl))
    ensures Rejecting(Settle(s, accepts), all, [], json, cl)
  {
    if |all| >= 11 + |json| {
      assert all[11..][..|json|] == json;
      var complete := s.(phase := JsonComplete, log := s.log + [OnFailure]);
      assert Advanced(s, accepts) == Some(complete);
      assert Settle(complete, accepts) == complete.(phase := DataPhase);
      assert s.log + [OnFailure] + Handed([]) == s.log + [OnFailure];
    }
  }

  lemma {:induction false} RejectsWritten(s: Sink, arrived: string, chunk: string, later: seq<string>, header: string,
                                          json: string, cl: nat, accepts: string -> bool)
    requires Rejectable(header, json, accepts) && StartsUpload(arrived + chunk, header, json)
    requires Rejecting(s, arrived, later, json, cl) && (|arrived| < 11 + |json| ==> later == [])
    ensures Rejecting(Written(s, chunk, accepts), arrived + chunk,
                      if |arrived| >= 11 + |json| then later + [chunk] else [], json, cl)
  {
    var all := arrived + chunk;
    if |arrived| < 10 {
      RejectsInitial(s.(aux := s.aux + chunk), all, header, json, cl, accepts);
    } else if |arrived| == 10 {
      assert all[10..] == chunk;
      RejectsSized(s.(aux := s.aux + chunk), all, header, json, cl, accepts);
    } else if |arrived| < 11 + |json| {
      assert all[11..] == arrived[11..] + chunk;
      RejectsSeparated(s.(aux := s.aux + chunk), all, header, json, cl, accepts);
    } else {
      assert Handed(later + [chunk]) == Handed(later) + [OnData(chunk)];
    }
  }

  /** If what should be JSON is rejected, then however the text is divided into writes, there is one failure callback at
      its last character and none for JSON. The data goes on being handed over, write by write,
        but what came in the same
      write as the last character of the JSON is lost. */
  lemma {:induction false} RejectedUpload(contentLength: nat, chunks: seq<string>, header: string, json: string,
                                          accepts: string -> bool)
    requires Rejectable(header, json, accepts) && StartsUpload(Concat(chunks), header, json)
    ensures var n := 11 + |json|;
      Rejecting(WriteAll(contentLength, chunks, accepts), Concat(chunks), Later(chunks, n), json, contentLength)
    ensures |Concat(chunks)| < 11 + |json| ==> Later(chunks, 11 + |json|) == []
    decreases |chunks|
  {
    if chunks != [] {
      var front, chunk := chunks[..|chunks| - 1], chunks[|chunks| - 1];
      if |Concat(front)| < 11 + |json| {
        NoneLater(front, 11 + |json|);
      }
      RejectedUpload(contentLength, front, header, json, accepts);
      RejectsWritten(WriteAll(contentLength, front, accepts), Concat(front), chunk, Later(front, 11 + |json|), header,
                     json, contentLength, accepts);
    }
  }

  lemma {:induction false} NoneLater(chunks: seq<string>, n: nat)
    requires |Concat(chunks)| < n
    ensures Later(chunks, n) == []
    decreases |chunks|
  {
    if chunks != [] {
      NoneLater(chunks[..|chunks| - 1], n);
    }
  }

  /** A length that cannot be read makes the write that completes its ten characters throw, before any callback. */
  lemma {:induction false} UnreadableLength(contentLength: nat, chunks: seq<string>, chunk: string,
                                            accepts: string -> bool)
    requires |Concat(chunks)| < 10 <= |Concat(chunks) + chunk| && StollHex((Concat(chunks) + chunk)[..10]) == None
    ensures var s := WriteAll(contentLength, chunks + [chunk], accepts); s.phase == Threw && s.log == []
  {
    assert (chunks + [chunk])[..|chunks|] == chunks;
    WaitsForLength(contentLength, chunks, accepts);
    var s := WriteAll(contentLength, chunks, accepts);
    assert Settle(EnterSizeComplete(s.(aux := s.aux + chunk)), accepts) == EnterSizeComplete(s.(aux := s.aux + chunk));
  }

  lemma {:induction false} WaitsForLength(contentLength: nat, chunks: seq<string>, accepts: string -> bool)
    requires |Concat(chunks)| < 10
    ensures var s := WriteAll(contentLength, chunks, accepts);
      s.phase == Initial && s.aux == Concat(chunks) && s.log == [] && s.contentLength == contentLength
    decreases |chunks|
  {
    if chunks != [] {
      WaitsForLength(contentLength, chunks[..|chunks| - 1], accepts);
    }
  }
}
