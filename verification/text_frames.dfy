/** The text frames between backend and frontend: `writeText` (backend/src/backend/server/frontend_user_session.cpp)
    puts a ten character hexadecimal length and a bar in front of each payload, `parseData`
    (app/src/backend/implementations/ws_impl.js) takes them apart again from a buffer that grows chunk by chunk.
    Characters are ASCII, so C++ bytes and JavaScript code units agree.
 */
module TextFrames {
  import opened Wrappers
  import opened JsTexts

  // ---- Hexadecimal numbers --------------------------------------------------------------------------------------

  function HexDigit(d: nat): char
    requires d < 16
  {
    "0123456789abcdef"[d]
  }

  /** `std::hex << std::setfill('0') << std::setw(width) << n`: longer than `width` when n does not fit. */
  function Hex(n: nat, width: nat): string
    decreases n, width
  {
    if n == 0 && width == 0 then ""
    else Hex(n / 16, if width == 0 then 0 else width - 1) + [HexDigit(n % 16)]
  }

  function Header(n: nat): string {
    "0x" + Hex(n, 8)
  }

  /** The value of a digit, or 99 for a character that is none. */
  function DigitValue(c: char): nat {
    if '0' <= c <= '9' then c as int - '0' as int
    else if 'a' <= c <= 'z' then c as int - 'a' as int + 10
    else if 'A' <= c <= 'Z' then c as int - 'A' as int + 10
    else 99
  }

  /** The number of leading characters that are digits in the radix. */
  function DigitCount(s: string, radix: nat): (count: nat)
    ensures count <= |s|
  {
    if s != [] && DigitValue(s[0]) < radix then 1 + DigitCount(s[1..], radix) else 0
  }

  function Value(s: string, radix: nat): nat {
    if s == [] then 0 else Value(s[..|s| - 1], radix) * radix + DigitValue(s[|s| - 1])
  }

  function TrimStart(s: string): string {
    if s != [] && IsSpace(s[0]) then TrimStart(s[1..]) else s
  }

  /** JavaScript's parseInt without a radix argument. None is NaN. */
  function ParseInt(s: string): Option<int> {
    var t := TrimStart(s);
    var negative := t != [] && t[0] == '-';
    var u := if t != [] && (t[0] == '-' || t[0] == '+') then t[1..] else t;
    match ParseNumber(u)
    case None => None
    case Some(value) =>
      var signed: int := value;
      Some(if negative then -signed else signed)
  }

  /** What follows the sign. */
  function ParseNumber(u: string): Option<nat> {
    var hex := |u| >= 2 && u[0] == '0' && (u[1] == 'x' || u[1] == 'X');
    var digits := if hex then u[2..] else u;
    var radix := if hex then 16 else 10;
    var count := DigitCount(digits, radix);
    if count == 0 then None else Some(Value(digits[..count], radix))
  }

  function Power16(e: nat): nat {
    if e == 0 then 1 else 16 * Power16(e - 1)
  }

  lemma Power16Of8()
    ensures Power16(8) == 0x1_0000_0000
  {
    assert Power16(4) == 0x1_0000;
  }

  lemma {:induction false} HexReadsBack(n: nat, width: nat)
    requires n < Power16(width)
    ensures |Hex(n, width)| == width
    ensures forall c :: c in Hex(n, width) ==> DigitValue(c) < 16
    ensures Value(Hex(n, width), 16) == n
    decreases width
  {
    if width > 0 {
      HexReadsBack(n / 16, width - 1);
      var front := Hex(n / 16, width - 1);
      assert Hex(n, width) == front + [HexDigit(n % 16)];
      assert Hex(n, width)[..width - 1] == front;
      assert DigitValue(HexDigit(n % 16)) == n % 16;
    }
  }

  lemma {:induction false} AllDigits(s: string, radix: nat)
    requires forall c :: c in s ==> DigitValue(c) < radix
    ensures DigitCount(s, radix) == |s|
    decreases |s|
  {
    if s != [] {
      assert s[0] in s;
      assert forall c :: c in s[1..] ==> c in s;
      AllDigits(s[1..], radix);
    }
  }

  lemma HeaderDigits(n: nat)
    requires n < 0x1_0000_0000
    ensures |Header(n)| == 10 && Header(n)[2..] == Hex(n, 8) && DigitValue(Header(n)[2]) < 16
    ensures |Hex(n, 8)| == 8 && DigitCount(Hex(n, 8), 16) == 8 && Value(Hex(n, 8), 16) == n
    ensures TrimStart(Header(n)) == Header(n)
  {
    Power16Of8();
    HexReadsBack(n, 8);
    AllDigits(Hex(n, 8), 16);
    assert Header(n)[2] in Hex(n, 8);
  }

  /** The receiver reads back the number the sender wrote, for every number of at most 32 bits. */
  lemma HeaderReadsBack(n: nat)
    requires n < 0x1_0000_0000
    ensures |Header(n)| == 10 && ParseInt(Header(n)) == Some(n)
  {
    HeaderDigits(n);
    assert Hex(n, 8)[..8] == Hex(n, 8);
  }

  /** The header keeps its ten characters exactly as long as the number fits into 32 bits. */
  lemma HeaderFitsIff(n: nat)
    ensures |Header(n)| == 10 <==> n < 0x1_0000_0000
  {
    Power16Of8();
    if n < 0x1_0000_0000 {
      HeaderReadsBack(n);
    } else {
      HexOverflows(n, 8);
    }
  }

  lemma {:induction false} HexOverflows(n: nat, width: nat)
    requires n >= Power16(width)
    ensures |Hex(n, width)| > width
    decreases width
  {
    if width > 0 {
      HexOverflows(n / 16, width - 1);
    }
  }

  /** A header is "0x" and eight digits, small ones where they are letters. */
  lemma {:induction false} HeaderShape(n: nat)
    requires n < 0x1_0000_0000
    ensures |Header(n)| == 10 && Header(n)[0] == '0' && Header(n)[1] == 'x'
    ensures forall i :: 2 <= i < 10 ==> '0' <= Header(n)[i] <= '9' || 'a' <= Header(n)[i] <= 'f'
  {
    HeaderDigits(n);
    HexShape(n, 8);
    assert forall i :: 2 <= i < 10 ==> Header(n)[i] == Hex(n, 8)[i - 2] && Hex(n, 8)[i - 2] in Hex(n, 8);
  }

  lemma {:induction false} HexShape(n: nat, width: nat)
    ensures forall c :: c in Hex(n, width) ==> '0' <= c <= '9' || 'a' <= c <= 'f'
    decreases n, width
  {
    if !(n == 0 && width == 0) {
      HexShape(n / 16, if width == 0 then 0 else width - 1);
      DigitsOf(n % 16);
    }
  }

  /** The digits of either case, and that nothing else is one. */
  lemma DigitsOf(d: nat)
    ensures d < 16 ==> HexDigit(d) as int == if d < 10 then 48 + d else 87 + d
    ensures forall c: char :: DigitValue(c) == d && d < 16 <==>
      d < 16 && if d < 10 then c as int == 48 + d else c as int == 87 + d || c as int == 55 + d
  {
  }

  /** parseInt skips white space, takes a sign, with "0x" hexadecimal digits and else decimal ones, and ignores whatever
      follows the last of them. Without digits there is no number. */
  lemma {:induction false} ParseIntReads(lead: string, sign: string, prefix: string, digits: string, tail: string)
    requires (forall c :: c in lead ==> c as int in WHITE_SPACE) && sign in ["", "+", "-"]
    requires IsNumber(prefix, digits, tail) && digits != ""
    ensures var value: int := Value(digits, if prefix == "" then 10 else 16);
      ParseInt(lead + (sign + (prefix + (digits + tail)))) == Some(if sign == "-" then -value else value)
  {
    var number := prefix + (digits + tail);
    NumberReads(prefix, digits, tail);
    NumberStarts(prefix, digits, tail);
    SignGoes(sign, number);
    SignOrDigit((sign + number)[0]);
    Trims(lead, sign + number);
  }

  lemma NumberStarts(prefix: string, digits: string, tail: string)
    requires prefix in ["", "0x", "0X"] && digits != "" && forall c :: c in digits ==> DigitValue(c) < 16
    ensures var number := prefix + (digits + tail); number != "" && DigitValue(number[0]) < 16
  {
    assert digits[0] in digits;
    assert (prefix + (digits + tail))[0] == if prefix == "" then digits[0] else '0';
  }

  lemma SignGoes(sign: string, number: string)
    requires sign in ["", "+", "-"] && number != "" && DigitValue(number[0]) < 16
    ensures var t := sign + number;
      && t != "" && (t[0] == '-' <==> sign == "-") && (t[0] == '+' <==> sign == "+")
      && (if t[0] == '-' || t[0] == '+' then t[1..] else t) == number
      && (t[0] == '+' || t[0] == '-' || DigitValue(t[0]) < 16)
  {
    if sign == "" {
      assert sign + number == number;
    }
  }

  /** Digits, which may carry a prefix that makes them hexadecimal, and behind them anything but a digit. */
  predicate IsNumber(prefix: string, digits: string, tail: string) {
    var radix := if prefix == "" then 10 else 16;
    && prefix in ["", "0x", "0X"]
    && (forall c :: c in digits ==> DigitValue(c) < radix) && (tail != "" ==> DigitValue(tail[0]) >= radix)
    && (prefix == "" && digits == "0" && tail != "" ==> tail[0] != 'x' && tail[0] != 'X')
  }

  lemma NumberReads(prefix: string, digits: string, tail: string)
    requires IsNumber(prefix, digits, tail)
    ensures ParseNumber(prefix + (digits + tail))
         == if digits == "" then None else Some(Value(digits, if prefix == "" then 10 else 16))
  {
    var u := prefix + (digits + tail);
    DigitsAhead(digits, tail, if prefix == "" then 10 else 16);
    assert (digits + tail)[..|digits|] == digits;
    if prefix == "" {
      assert u == digits + tail;
      assert digits != "" ==> digits[0] in digits;
      assert |digits| > 1 ==> u[1] == digits[1] && digits[1] in digits;
      assert digits == "" ==> u == tail;
    } else {
      assert u[0] == '0' && u[1] == prefix[1] && u[2..] == digits + tail;
    }
  }

  lemma SignOrDigit(c: char)
    requires c == '+' || c == '-' || DigitValue(c) < 16
    ensures c as int !in WHITE_SPACE
  {
  }

  /** The first digit counts most, in either radix. */
  lemma ValueOfThree()
    ensures Value("365", 10) == 365 && Value("1Fa", 16) == 0x1FA && Value("", 10) == 0
  {
    assert "365"[..2] == "36" && "36"[..1] == "3" && "3"[..0] == "";
    assert "1Fa"[..2] == "1F" && "1F"[..1] == "1" && "1"[..0] == "";
  }

  lemma {:induction false} DigitsAhead(digits: string, tail: string, radix: nat)
    requires (forall c :: c in digits ==> DigitValue(c) < radix) && (tail != "" ==> DigitValue(tail[0]) >= radix)
    ensures DigitCount(digits + tail, radix) == |digits|
    decreases |digits|
  {
    if digits == "" {
      assert digits + tail == tail;
    } else {
      assert digits[0] in digits && (digits + tail)[1..] == digits[1..] + tail;
      assert forall c :: c in digits[1..] ==> c in digits;
      DigitsAhead(digits[1..], tail, radix);
    }
  }

  lemma {:induction false} Trims(lead: string, s: string)
    requires (forall c :: c in lead ==> c as int in WHITE_SPACE) && (s != "" ==> s[0] as int !in WHITE_SPACE)
    ensures TrimStart(lead + s) == s
    decreases |lead|
  {
    if lead == "" {
      assert lead + s == s;
      if s != "" {
        IsSpaceIff(s[0]);
      }
    } else {
      assert lead[0] in lead && (lead + s)[1..] == lead[1..] + s;
      assert forall c :: c in lead[1..] ==> c in lead;
      IsSpaceIff(lead[0]);
      Trims(lead[1..], s);
    }
  }

  /** An initial piece of a header reads as some number that is not negative, unless there is no digit in it. */
  lemma PieceReads(n: nat, part: string)
    requires n < 0x1_0000_0000 && part <= Header(n)
    ensures ParseInt(part) == None <==> part == "" || part == "0x"
    ensures ParseInt(part) == None || ParseInt(part).value >= 0
  {
    HeaderDigits(n);
    if |part| > 2 {
      assert part[..2] == "0x" && part[2] == Header(n)[2];
    }
  }

  // ---- Sending and receiving ------------------------------------------------------------------------------------

  function Frame(payload: string): string {
    Header(|payload|) + "|" + payload
  }

  function Frames(payloads: seq<string>): string {
    if payloads == [] then "" else Frame(payloads[0]) + Frames(payloads[1..])
  }

  /** String.prototype.substr with a start inside or behind the string. */
  function Substr(s: string, start: nat, length: int): string {
    if start >= |s| || length <= 0 then "" else if start + length <= |s| then s[start..start + length] else s[start..]
  }

  /** A frame is its header, a bar and the payload, and frames stand one behind the other. */
  lemma {:induction false} FrameShape(payload: string, more: seq<string>)
    requires |payload| < 0x1_0000_0000
    ensures var text := Frames([payload] + more);
      && |text| >= 11 + |payload|
      && text[..10] == Header(|payload|) && text[10] == '|' && text[11..][..|payload|] == payload
      && text[11 + |payload|..] == Frames(more)
  {
    HeaderDigits(|payload|);
    assert ([payload] + more)[1..] == more;
    var text := Header(|payload|) + "|" + payload + Frames(more);
    assert Frames([payload] + more) == text;
    assert text[11..][..|payload|] == payload;
  }

  /** What one call of parseData does with the text buffer: report that no number is there, wait, fail in JSON.parse
      (which leaves the frame where it is), or cut a payload off the front. */
  datatype Parsing = NoNumber | Waiting | Unparsable | Cut(payload: string, rest: string)

  /** `accepts` says which texts JSON.parse accepts. The empty text never is JSON. */
  function ParseData(buffer: string, accepts: string -> bool): Parsing {
    match ParseInt(Substr(buffer, 0, 10))
    case None => NoNumber
    case Some(size) =>
      if |buffer| < size + 11 then Waiting
      else
        var payload := Substr(buffer, 11, size);
        if payload == "" || !accepts(payload) then Unparsable
        else Cut(payload, buffer[11 + size..])
  }

  /** What repeated calls would take out of the buffer without any more text coming in. */
  function Extract(buffer: string, accepts: string -> bool): seq<string>
    decreases |buffer|
  {
    match ParseData(buffer, accepts)
    case Cut(payload, rest) => [payload] + Extract(rest, accepts)
    case _ => []
  }

  /** What the sender promises: a length that fits the header. */
  predicate Sendable(payload: string) {
    |payload| < 0x1_0000_0000
  }

  /** What the receiver takes. */
  predicate Acceptable(payload: string, accepts: string -> bool) {
    payload != "" && accepts(payload)
  }

  /** A whole frame in front of the buffer is cut off if its payload is accepted, and else stays where it is. */
  lemma WholeFrameIsCut(payload: string, rest: string, accepts: string -> bool)
    requires Sendable(payload)
    ensures ParseData(Frame(payload) + rest, accepts) ==
      if Acceptable(payload, accepts) then Cut(payload, rest) else Unparsable
  {
    HeaderReadsBack(|payload|);
    var buffer := Frame(payload) + rest;
    assert buffer[0..10] == Header(|payload|);
    assert buffer[11..11 + |payload|] == payload;
    assert buffer[11 + |payload|..] == rest;
  }

  /** A frame that has only arrived in part is left alone, wherever it was cut, even inside its header. Cut behind "0x",
      it is reported as no number. */
  lemma PartialFrameWaits(payload: string, part: string, accepts: string -> bool)
    requires Sendable(payload) && part <= Frame(payload) && part != Frame(payload)
    ensures ParseData(part, accepts) == if part == "" || part == "0x" then NoNumber else Waiting
  {
    HeaderReadsBack(|payload|);
    assert |part| < |Frame(payload)|;
    if |part| >= 10 {
      assert part[0..10] == Frame(payload)[..10] == Header(|payload|);
    } else {
      assert Substr(part, 0, 10) == part;
      assert part == Frame(payload)[..|part|] == Header(|payload|)[..|part|];
      PieceReads(|payload|, part);
    }
  }

  // ---- Runs -----------------------------------------------------------------------------------------------------

  /** The receiver's text buffer and the payloads it has handed on. */
  datatype Receiver = Receiver(buffer: string, delivered: seq<string>)

  /** One text message event: the chunk is appended, then at most one payload is taken out. An event without any text
      is ignored. */
  function OnText(r: Receiver, chunk: string, accepts: string -> bool): Receiver {
    if chunk == "" then r
    else
      match ParseData(r.buffer + chunk, accepts)
      case Cut(payload, rest) => Receiver(rest, r.delivered + [payload])
      case _ => r.(buffer := r.buffer + chunk)
  }

  function ReceiveFrom(r: Receiver, chunks: seq<string>, accepts: string -> bool): Receiver {
    if chunks == [] then r
    else OnText(ReceiveFrom(r, chunks[..|chunks| - 1], accepts), chunks[|chunks| - 1], accepts)
  }

  function Receive(chunks: seq<string>, accepts: string -> bool): Receiver {
    ReceiveFrom(Receiver("", []), chunks, accepts)
  }

  function Concat(chunks: seq<string>): string {
    if chunks == [] then "" else Concat(chunks[..|chunks| - 1]) + chunks[|chunks| - 1]
  }

  ghost predicate AllSendable(payloads: seq<string>) {
    forall i :: 0 <= i < |payloads| ==> Sendable(payloads[i])
  }

  /** The payloads before the first one that is not accepted. */
  function Accepted(payloads: seq<string>, accepts: string -> bool): seq<string> {
    if payloads == [] || !Acceptable(payloads[0], accepts) then []
    else [payloads[0]] + Accepted(payloads[1..], accepts)
  }

  /** It is the longest initial part of acceptable payloads, and everything exactly when each is acceptable. */
  lemma {:induction false} AcceptedIsLongest(payloads: seq<string>, accepts: string -> bool)
    ensures var taken := Accepted(payloads, accepts);
      && taken <= payloads
      && (forall p :: p in taken ==> Acceptable(p, accepts))
      && (|taken| < |payloads| ==> !Acceptable(payloads[|taken|], accepts))
      && (taken == payloads <==> forall p :: p in payloads ==> Acceptable(p, accepts))
    decreases |payloads|
  {
    if payloads != [] && Acceptable(payloads[0], accepts) {
      AcceptedIsLongest(payloads[1..], accepts);
      PrefixCons(payloads, Accepted(payloads[1..], accepts));
      assert payloads == [payloads[0]] + payloads[1..];
    }
  }

  /** `delivered` and the frames of `todo` are the whole stream, of which `ahead` has not arrived yet; what was
      delivered and what is acceptable of the rest are what is acceptable of the whole. */
  ghost predicate InStep(r: Receiver, ahead: string, todo: seq<string>, payloads: seq<string>,
                         accepts: string -> bool) {
    && r.delivered + todo == payloads && r.buffer + ahead == Frames(todo)
    && r.delivered + Accepted(todo, accepts) == Accepted(payloads, accepts)
  }

  lemma OnTextInStep(r: Receiver, chunk: string, ahead: string, todo: seq<string>,
                     payloads: seq<string>, accepts: string -> bool)
    requires AllSendable(todo) && InStep(r, chunk + ahead, todo, payloads, accepts)
    ensures InStep(OnText(r, chunk, accepts), ahead, todo, payloads, accepts)
         || (todo != [] && InStep(OnText(r, chunk, accepts), ahead, todo[1..], payloads, accepts))
  {
    var buffer := r.buffer + chunk;
    assert buffer + ahead == r.buffer + (chunk + ahead);
    assert chunk == "" ==> buffer == r.buffer;
    FrontOfBuffer(buffer, ahead, todo, accepts);
    if todo != [] && |buffer| >= |Frame(todo[0])| && Acceptable(todo[0], accepts) {
      HeadMovesOver(r.delivered, todo, payloads);
      HeadMovesOver(r.delivered, Accepted(todo, accepts), Accepted(payloads, accepts));
    }
  }

  lemma HeadMovesOver(done: seq<string>, todo: seq<string>, all: seq<string>)
    requires done + todo == all && todo != []
    ensures done + [todo[0]] + todo[1..] == all
  {
    assert todo == [todo[0]] + todo[1..];
  }

  /** The buffer starts with a whole frame, or with an unfinished one, or is empty. */
  lemma {:induction false} FrontOfBuffer(buffer: string, ahead: string, todo: seq<string>, accepts: string -> bool)
    requires AllSendable(todo) && buffer + ahead == Frames(todo)
    ensures if todo != [] && |buffer| >= |Frame(todo[0])| && Acceptable(todo[0], accepts)
      then ParseData(buffer, accepts) == Cut(todo[0], buffer[|Frame(todo[0])|..])
        && buffer[|Frame(todo[0])|..] + ahead == Frames(todo[1..])
      else !ParseData(buffer, accepts).Cut?
  {
    if todo == [] {
      assert buffer == "";
    } else {
      OneInFront(buffer, ahead, Frame(todo[0]), Frames(todo[1..]));
      if |buffer| >= |Frame(todo[0])| {
        WholeFrameIsCut(todo[0], buffer[|Frame(todo[0])|..], accepts);
      } else {
        PartialFrameWaits(todo[0], buffer, accepts);
      }
    }
  }

  /** Two ways to cut the same text. */
  lemma OneInFront(buffer: string, ahead: string, frame: string, more: string)
    requires buffer + ahead == frame + more
    ensures if |buffer| >= |frame| then buffer == frame + buffer[|frame|..] && buffer[|frame|..] + ahead == more
      else buffer <= frame && buffer != frame
  {
    if |buffer| >= |frame| {
      assert (buffer + ahead)[..|frame|] == frame;
      assert (buffer + ahead)[|frame|..] == more;
    } else {
      assert buffer == (buffer + ahead)[..|buffer|] == frame[..|buffer|];
    }
  }

  /** What repeated calls would take out is exactly the whole frames in the buffer, up to the first one rejected. */
  lemma {:induction false} ExtractsWholeFrames(buffer: string, ahead: string, todo: seq<string>,
                                               accepts: string -> bool)
    requires AllSendable(todo) && buffer + ahead == Frames(todo)
    ensures Extract(buffer, accepts) <= Accepted(todo, accepts)
    ensures ahead == "" ==> Extract(buffer, accepts) == Accepted(todo, accepts)
    decreases |todo|
  {
    FrontOfBuffer(buffer, ahead, todo, accepts);
    if todo == [] {
      assert buffer == "";
    } else if |buffer| >= |Frame(todo[0])| && Acceptable(todo[0], accepts) {
      var rest := buffer[|Frame(todo[0])|..];
      ExtractsWholeFrames(rest, ahead, todo[1..], accepts);
      PrefixCons(Accepted(todo, accepts), Extract(rest, accepts));
    } else if Acceptable(todo[0], accepts) {
      OneInFront(buffer, ahead, Frame(todo[0]), Frames(todo[1..]));
      assert |ahead| > 0;
    }
  }

  lemma PrefixCons(s: seq<string>, t: seq<string>)
    requires s != [] && t <= s[1..]
    ensures [s[0]] + t <= s && (t == s[1..] ==> [s[0]] + t == s)
  {
  }

  lemma {:induction false} ReceiverInStep(chunks: seq<string>, ahead: string, payloads: seq<string>,
                                          accepts: string -> bool) returns (todo: seq<string>)
    requires AllSendable(payloads) && Concat(chunks) + ahead == Frames(payloads)
    ensures AllSendable(todo) && InStep(Receive(chunks, accepts), ahead, todo, payloads, accepts)
    decreases |chunks|
  {
    if chunks == [] {
      todo := payloads;
      assert [] + payloads == payloads;
    } else {
      var front, chunk := chunks[..|chunks| - 1], chunks[|chunks| - 1];
      assert Concat(front) + (chunk + ahead) == Concat(chunks) + ahead;
      todo := ReceiverInStep(front, chunk + ahead, payloads, accepts);
      OnTextInStep(Receive(front, accepts), chunk, ahead, todo, payloads, accepts);
      if !InStep(Receive(chunks, accepts), ahead, todo, payloads, accepts) {
        todo := todo[1..];
      }
    }
  }

  /** Text frames round trip. Whatever part of the sender's text has arrived, in whatever chunks, and whether or not its
      payloads are JSON: what was delivered plus what the buffer still holds in whole frames is an initial run of the
      payloads before the first one rejected, and it is all of them once everything has arrived. */
  lemma {:induction false} FramesRoundTrip(chunks: seq<string>, ahead: string, payloads: seq<string>,
                                           accepts: string -> bool)
    requires AllSendable(payloads) && Concat(chunks) + ahead == Frames(payloads)
    ensures var r := Receive(chunks, accepts);
      && r.delivered + Extract(r.buffer, accepts) <= Accepted(payloads, accepts)
      && (ahead == "" ==> r.delivered + Extract(r.buffer, accepts) == Accepted(payloads, accepts))
  {
    var r := Receive(chunks, accepts);
    var todo := ReceiverInStep(chunks, ahead, payloads, accepts);
    ExtractsWholeFrames(r.buffer, ahead, todo, accepts);
  }

  /** Everything sent comes out exactly if the receiver accepts every payload. */
  lemma {:induction false} EverythingArrivesIff(chunks: seq<string>, payloads: seq<string>, accepts: string -> bool)
    requires AllSendable(payloads) && Concat(chunks) == Frames(payloads)
    ensures var r := Receive(chunks, accepts);
      r.delivered + Extract(r.buffer, accepts) == payloads <==> forall p :: p in payloads ==> Acceptable(p, accepts)
  {
    assert Concat(chunks) + "" == Concat(chunks);
    FramesRoundTrip(chunks, "", payloads, accepts);
    AcceptedIsLongest(payloads, accepts);
  }

  /** The buffer starts with a whole frame that the receiver rejects. */
  ghost predicate Blocked(buffer: string, accepts: string -> bool) {
    exists payload, rest :: Sendable(payload) && !Acceptable(payload, accepts) && buffer == Frame(payload) + rest
  }

  lemma {:induction false} BlockedStays(buffer: string, chunk: string, accepts: string -> bool)
    requires Blocked(buffer, accepts)
    ensures Blocked(buffer + chunk, accepts) && ParseData(buffer + chunk, accepts) == Unparsable
  {
    var payload, rest :| Sendable(payload) && !Acceptable(payload, accepts) && buffer == Frame(payload) + rest;
    assert buffer + chunk == Frame(payload) + (rest + chunk);
    WholeFrameIsCut(payload, rest + chunk, accepts);
  }

  /** A rejected frame in front blocks the receiver for good: whatever else comes, it only makes the buffer longer. */
  lemma {:induction false} RejectedFrameBlocks(r: Receiver, chunks: seq<string>, accepts: string -> bool)
    requires Blocked(r.buffer, accepts)
    ensures ReceiveFrom(r, chunks, accepts) == r.(buffer := r.buffer + Concat(chunks))
    ensures Blocked(r.buffer + Concat(chunks), accepts) && Extract(r.buffer + Concat(chunks), accepts) == []
    decreases |chunks|
  {
    if chunks == [] {
      assert r.buffer + "" == r.buffer;
      BlockedStays(r.buffer, "", accepts);
    } else {
      var front, chunk := chunks[..|chunks| - 1], chunks[|chunks| - 1];
      RejectedFrameBlocks(r, front, accepts);
      BlockedStays(r.buffer + Concat(front), chunk, accepts);
      Reassociate(r.buffer, Concat(front), chunk);
      assert chunk == "" ==> r.buffer + Concat(chunks) == r.buffer + Concat(front);
    }
  }

  lemma Reassociate(a: string, b: string, c: string)
    ensures (a + b) + c == a + (b + c)
  {
  }
}
