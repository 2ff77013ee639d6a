/** Sending a file in binary frames: `FileWriter` (backend/src/backend/server/writer.cpp) writes one buffer at a time,
    each from the completion callback of the one before, through `writeBinary`
    (backend/src/backend/server/frontend_user_session.cpp).
 */
module FileSenders {
  import opened Wrappers
  import opened TextFrames

  const BUFFER_SIZE: nat := 4096

  function Min(a: nat, b: nat): nat {
    if a < b then a else b
  }

  /** A 32-bit int as `std::hex` prints it. */
  function AsUnsigned(ref: int): nat {
    ref % 0x1_0000_0000
  }

  function BinaryFrame(ref: int, data: string, amount: nat): string {
    Header(AsUnsigned(ref)) + data[..Min(|data|, amount)]
  }

  /** Every binary frame has ten characters of header, whatever the sign of its reference, and then no more than the
      first `amount` characters of the data. A negative reference goes out as its 32-bit pattern. */
  lemma {:induction false} BinaryFrameShape(ref: int, data: string, amount: nat)
    requires -0x8000_0000 <= ref < 0x8000_0000
    ensures var frame := BinaryFrame(ref, data, amount);
      && |frame| == 10 + (if amount < |data| then amount else |data|) && frame[10..] <= data
      && ParseInt(frame[..10]) == Some(if ref < 0 then ref + 0x1_0000_0000 else ref)
  {
    HeaderReadsBack(AsUnsigned(ref));
    var frame := BinaryFrame(ref, data, amount);
    assert frame[..10] == Header(AsUnsigned(ref)) && frame[10..] == data[..Min(|data|, amount)];
  }

  class Session {
    var alive: bool
    var outgoing: seq<string>

    constructor ()
      ensures alive && outgoing == []
    {
      alive, outgoing := true, [];
    }

    /** Fills a zeroed buffer with the header and the first `amount` characters of `data`. */
    method WriteBinary(ref: int, data: string, amount: nat)
      modifies this`outgoing
      ensures outgoing == old(outgoing) + [BinaryFrame(ref, data, amount)]
    {
      HeaderReadsBack(AsUnsigned(ref));
      var size := Min(|data|, amount);
      var decorated := new char[size + 10](_ => '\0');
      var refStr := Header(AsUnsigned(ref));
      for i := 0 to 10
        invariant outgoing == old(outgoing) && decorated[..i] == refStr[..i]
      {
        decorated[i] := refStr[i];
      }
      for i := 0 to size
        invariant outgoing == old(outgoing) && decorated[..10] == refStr
        invariant decorated[10..10 + i] == data[..i]
      {
        decorated[10 + i] := data[i];
      }
      assert decorated[..] == decorated[..10] + decorated[10..10 + size];
      outgoing := outgoing + [decorated[..]];
    }
  }

  /** The callback a writer is waiting for: none, that of a data frame of so many characters, or that of the last
      frame. */
  datatype Phase = Idle | InFlight(readCount: nat) | Ending

  datatype Sender = Sender(ref: nat, file: string, pos: nat, phase: Phase)

  predicate SenderOk(s: Sender) {
    s.pos <= |s.file|
  }

  /** What the next read of the file stream gets. */
  function NextRead(s: Sender): string
    requires SenderOk(s)
  {
    s.file[s.pos..s.pos + Min(BUFFER_SIZE, |s.file| - s.pos)]
  }

  function Wrote(s: Sender): (s': Sender)
    requires SenderOk(s)
    ensures SenderOk(s')
  {
    s.(pos := s.pos + |NextRead(s)|, phase := InFlight(|NextRead(s)|))
  }

  /** The completion callback of the frame in flight: go on after a full buffer, else send one header alone. */
  function Completed(s: Sender): (s': Sender)
    requires SenderOk(s)
    ensures SenderOk(s')
  {
    match s.phase
    case InFlight(readCount) => if readCount == BUFFER_SIZE then Wrote(s) else s.(phase := Ending)
    case _ => s.(phase := Idle)
  }

  /** The payload the callback sends, if it sends a frame at all. */
  function CompletionSends(s: Sender): seq<string>
    requires SenderOk(s)
  {
    match s.phase
    case InFlight(readCount) => [if readCount == BUFFER_SIZE then NextRead(s) else ""]
    case _ => []
  }

  class FileWriter {
    const ref: nat
    const file: string
    const session: Session
    const buffer: array<char>
    var pos: nat
    var phase: Phase

    function View(): Sender
      reads this
    {
      Sender(ref, file, pos, phase)
    }

    predicate Valid()
      reads this
    {
      buffer.Length == BUFFER_SIZE && SenderOk(View()) && ref < 0x1_0000_0000
    }

    constructor (ref: nat, file: string, session: Session)
      requires ref < 0x1_0000_0000
      ensures Valid() && View() == Sender(ref, file, 0, Idle) && this.session == session && fresh(buffer)
    {
      this.ref, this.file, this.session := ref, file, session;
      buffer := new char[BUFFER_SIZE](_ => '\0');
      pos, phase := 0, Idle;
    }

    /** reader_.read and gcount: overwrites the front of the buffer and leaves the rest of it stale. */
    method Read() returns (readCount: nat)
      requires Valid()
      modifies this`pos, buffer
      ensures Valid() && readCount == |NextRead(old(View()))| && pos == old(pos) + readCount
      ensures buffer[..readCount] == NextRead(old(View()))
    {
      readCount := Min(BUFFER_SIZE, |file| - pos);
      for i := 0 to readCount
        invariant pos == old(pos) && buffer[..i] == file[pos..pos + i]
      {
        buffer[i] := file[pos + i];
      }
      pos := pos + readCount;
    }

    method Write()
      requires Valid()
      modifies this`pos, this`phase, buffer, session`outgoing
      ensures Valid()
      ensures session.alive ==> View() == Wrote(old(View()))
      ensures session.alive ==> session.outgoing == old(session.outgoing) + [Header(ref) + NextRead(old(View()))]
      ensures !session.alive ==> View() == old(View()).(phase := Idle) && session.outgoing == old(session.outgoing)
    {
      if session.alive {
        var readCount := Read();
        session.WriteBinary(ref, buffer[..], readCount);
        assert buffer[..][..readCount] == buffer[..readCount];
        phase := InFlight(readCount);
      } else {
        phase := Idle;
      }
    }

    /** The callback given to writeBinary. */
    method OnComplete()
      requires Valid()
      modifies this`pos, this`phase, buffer, session`outgoing
      ensures Valid()
      ensures session.alive ==> View() == Completed(old(View()))
      ensures session.alive ==>
        session.outgoing == old(session.outgoing) + FramesOf(ref, CompletionSends(old(View())))
      ensures !session.alive ==> View() == old(View()).(phase := Idle) && session.outgoing == old(session.outgoing)
    {
      match phase
      case InFlight(readCount) =>
        if readCount == BUFFER_SIZE {
          Write();
        } else if session.alive {
          session.WriteBinary(ref, "", 0);
          phase := Ending;
        } else {
          phase := Idle;
        }
      case _ =>
        phase := Idle;
    }
  }

  function FramesOf(ref: nat, payloads: seq<string>): seq<string> {
    seq(|payloads|, i requires 0 <= i < |payloads| => Header(ref) + payloads[i])
  }

  // ---- The frames of one file -----------------------------------------------------------------------------------

  /** The payloads that carry the file from `pos` on: full buffers, the rest, and an empty one. */
  function Payloads(file: string, pos: nat): seq<string>
    requires pos <= |file|
    decreases |file| - pos
  {
    if |file| - pos >= BUFFER_SIZE then [file[pos..pos + BUFFER_SIZE]] + Payloads(file, pos + BUFFER_SIZE)
    else [file[pos..], ""]
  }

  function Joined(payloads: seq<string>): string {
    if payloads == [] then "" else payloads[0] + Joined(payloads[1..])
  }

  /** What a sender in this state has yet to send. */
  function Remaining(s: Sender): seq<string>
    requires SenderOk(s)
  {
    match s.phase
    case InFlight(readCount) => if readCount == BUFFER_SIZE then Payloads(s.file, s.pos) else [""]
    case _ => []
  }

  /** Each callback sends the next of the remaining payloads, so the writer stops after the last of them. */
  lemma CompletionSendsNext(s: Sender)
    requires SenderOk(s) && s.phase.InFlight?
    ensures Remaining(s) == CompletionSends(s) + Remaining(Completed(s))
  {
    if s.phase.readCount == BUFFER_SIZE {
      WriteSendsNext(s);
    }
  }

  lemma WriteSendsNext(s: Sender)
    requires SenderOk(s)
    ensures Payloads(s.file, s.pos) == [NextRead(s)] + Remaining(Wrote(s))
  {
    if |s.file| - s.pos < BUFFER_SIZE {
      assert NextRead(s) == s.file[s.pos..];
    }
  }

  /** A file of n characters takes n / 4096 + 2 frames. The last is always a bare header, and the one before it
      is too exactly when the size is a multiple of the buffer size. All others carry data. */
  lemma {:induction false} PayloadShape(file: string, pos: nat)
    requires pos <= |file|
    ensures var all := Payloads(file, pos);
      && |all| == (|file| - pos) / 4096 + 2
      && all[|all| - 1] == ""
      && (all[|all| - 2] == "" <==> (|file| - pos) % 4096 == 0)
      && forall i :: 0 <= i < |all| - 2 ==> |all[i]| == 4096
    decreases |file| - pos
  {
    if |file| - pos >= BUFFER_SIZE {
      PayloadShape(file, pos + BUFFER_SIZE);
      assert (|file| - pos) / BUFFER_SIZE == (|file| - (pos + BUFFER_SIZE)) / BUFFER_SIZE + 1;
      assert (|file| - pos) % BUFFER_SIZE == (|file| - (pos + BUFFER_SIZE)) % BUFFER_SIZE;
    }
  }

  /** Everything up to the first bare header is the file. */
  lemma {:induction false} PayloadsCarryFile(file: string, pos: nat, d: nat)
    requires pos <= |file| && d < |Payloads(file, pos)| && Payloads(file, pos)[d] == ""
    requires forall i :: 0 <= i < d ==> Payloads(file, pos)[i] != ""
    ensures Joined(Payloads(file, pos)[..d]) == file[pos..]
    decreases |file| - pos
  {
    var all := Payloads(file, pos);
    if |file| - pos >= BUFFER_SIZE {
      var rest := Payloads(file, pos + BUFFER_SIZE);
      assert forall i :: 0 <= i < d - 1 ==> rest[i] == all[i + 1];
      PayloadsCarryFile(file, pos + BUFFER_SIZE, d - 1);
      assert all[..d] == [all[0]] + rest[..d - 1];
      assert file[pos..] == file[pos..pos + BUFFER_SIZE] + file[pos + BUFFER_SIZE..];
    } else if d == 1 {
      assert all[..1] == [file[pos..]];
      assert [file[pos..]][1..] == [];
    } else {
      assert d == 0;
      assert all[..0] == [];
    }
  }

  lemma {:induction false} JoinedAppend(payloads: seq<string>, p: string)
    ensures Joined(payloads + [p]) == Joined(payloads) + p
    decreases |payloads|
  {
    if payloads != [] {
      assert (payloads + [p])[1..] == payloads[1..] + [p];
      JoinedAppend(payloads[1..], p);
    } else {
      assert [p][1..] == [];
      assert [] + [p] == [p];
    }
  }
}
