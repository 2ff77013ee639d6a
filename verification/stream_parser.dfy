/** The incremental framer for JSON requests (backend/src/backend/server/stream/stream_parser.cpp). Text arrives in
    arbitrary pieces; the framer cuts complete top-level objects off the front of what it has buffered and remembers
    how far it has looked.
 */
module StreamParsers {
  import opened Wrappers

  /** FindMemoizer without its offset. The C++ int is unbounded here. */
  datatype Find = Find(curly: int, escape: bool, inside: bool)

  const FRESH := Find(0, false, false)

  // ---- Scanning from scratch ------------------------------------------------------------------------------------

  /** The scanner returns at this character: it is the brace that closes the outermost object. */
  predicate Closes(f: Find, c: char) {
    c == '}' && !f.inside && f.curly == 1
  }

  /** One iteration of the scanning loop that does not return. */
  function Advance(f: Find, c: char): Find {
    var g :=
      if c == '{' && !f.inside then f.(curly := f.curly + 1)
      else if c == '}' && !f.inside then f.(curly := f.curly - 1)
      else if c == '"' && !f.escape then f.(inside := !f.inside)
      else if c == '\\' then f.(escape := !f.escape)
      else f;
    if c != '\\' && g.escape then g.(escape := false) else g
  }

  function After(f: Find, s: string): Find
    decreases |s|
  {
    if s == [] then f else After(Advance(f, s[0]), s[1..])
  }

  /** The index of the first closing brace, or |s|. */
  function EndFrom(f: Find, s: string): (end: nat)
    ensures end <= |s|
    decreases |s|
  {
    if s == [] || Closes(f, s[0]) then 0 else 1 + EndFrom(Advance(f, s[0]), s[1..])
  }

  predicate IsSpace(c: char) {
    c == ' ' || c == '\t' || c == '\n' || c == '\U{000b}' || c == '\U{000c}' || c == '\r'
  }

  function Strip(s: string): string {
    if s != [] && IsSpace(s[0]) then Strip(s[1..]) else s
  }

  /** Every object text in `s`, and what is left behind the last one. */
  datatype Pieces = Pieces(objects: seq<string>, rest: string)

  function Split(s: string): Pieces
    decreases |s|
  {
    var end := EndFrom(FRESH, s);
    if end == |s| then Pieces([], s)
    else
      var tail := Split(s[end + 1..]);
      Pieces([Strip(s[..end + 1])] + tail.objects, tail.rest)
  }

  lemma {:induction false} ScanConcat(f: Find, a: string, b: string)
    ensures After(f, a + b) == After(After(f, a), b)
    ensures EndFrom(f, a) < |a| ==> EndFrom(f, a + b) == EndFrom(f, a)
    ensures EndFrom(f, a) == |a| ==> EndFrom(f, a + b) == |a| + EndFrom(After(f, a), b)
    decreases |a|
  {
    if a == [] {
      assert a + b == b;
    } else {
      assert (a + b)[1..] == a[1..] + b;
      ScanConcat(Advance(f, a[0]), a[1..], b);
    }
  }

  // ---- What the scanner's state means, for any text -----------------------------------------------------------------

  /** The number of backslashes that a text ends with. */
  function Backslashes(s: string): nat {
    if s != "" && s[|s| - 1] == '\\' then 1 + Backslashes(s[..|s| - 1]) else 0
  }

  /** A text ends inside a string if its quotes are odd in number, those behind an odd run of backslashes not counted.
      */
  predicate EndsInString(s: string) {
    if s == "" then false
    else
      var front, last := s[..|s| - 1], s[|s| - 1];
      if last == '"' && Backslashes(front) % 2 == 0 then !EndsInString(front) else EndsInString(front)
  }

  /** Opening braces less closing ones, those in strings not counted. */
  function Depth(s: string): int {
    if s == "" then 0
    else
      var front, last := s[..|s| - 1], s[|s| - 1];
      Depth(front) + if EndsInString(front) then 0 else if last == '{' then 1 else if last == '}' then -1 else 0
  }

  lemma {:induction false} ScannerCounts(s: string)
    ensures After(FRESH, s) == Find(Depth(s), Backslashes(s) % 2 == 1, EndsInString(s))
    decreases |s|
  {
    if s != "" {
      var front, last := s[..|s| - 1], s[|s| - 1];
      ScannerCounts(front);
      ScanConcat(FRESH, front, [last]);
      assert s == front + [last] && [last][1..] == [];
    }
  }

  /** The scanner stops at the first brace outside strings that closes the last open one, and only there. */
  lemma {:induction false} EndIsFirstClosing(s: string)
    ensures var end := EndFrom(FRESH, s);
      && (forall i :: 0 <= i < end ==> !(s[i] == '}' && !EndsInString(s[..i]) && Depth(s[..i]) == 1))
      && (end < |s| ==> s[end] == '}' && !EndsInString(s[..end]) && Depth(s[..end]) == 1)
  {
    var end := EndFrom(FRESH, s);
    forall i | 0 <= i <= end && i < |s|
      ensures i == end <==> s[i] == '}' && !EndsInString(s[..i]) && Depth(s[..i]) == 1
    {
      ScanConcat(FRESH, s[..i], s[i..]);
      assert s == s[..i] + s[i..];
      ScannerCounts(s[..i]);
      ScanStops(s, i);
    }
  }

  lemma {:induction false} ScanStops(s: string, i: nat)
    requires i <= EndFrom(FRESH, s) && i < |s|
    ensures i == EndFrom(FRESH, s) <==> Closes(After(FRESH, s[..i]), s[i])
  {
    assert s == s[..i] + s[i..];
    ScanConcat(FRESH, s[..i], s[i..]);
  }

  /** Exactly the six characters of isspace are taken off the front. */
  lemma {:induction false} StripIs(lead: string, s: string)
    requires forall c :: c in lead ==> c as int == 32 || 9 <= c as int <= 13
    requires s != "" ==> !(s[0] as int == 32 || 9 <= s[0] as int <= 13)
    ensures Strip(lead + s) == s
    decreases |lead|
  {
    if lead == "" {
      assert lead + s == s;
    } else {
      assert lead[0] in lead && (lead + s)[1..] == lead[1..] + s;
      assert forall c :: c in lead[1..] ==> c in lead;
      StripIs(lead[1..], s);
    }
  }

  /** Splitting may stop anywhere and resume with the unsplit rest in front. */
  lemma {:induction false} SplitConcat(a: string, b: string)
    ensures Split(a + b).objects == Split(a).objects + Split(Split(a).rest + b).objects
    ensures Split(a + b).rest == Split(Split(a).rest + b).rest
    decreases |a|
  {
    var end := EndFrom(FRESH, a);
    if end == |a| {
      assert Split(a) == Pieces([], a);
    } else {
      var first, tail := Strip(a[..end + 1]), a[end + 1..];
      SplitConcat(tail, b);
      SplitHead(a, b);
      assert Split(a) == Pieces([first] + Split(tail).objects, Split(tail).rest);
      Associate([first], Split(tail).objects, Split(Split(tail).rest + b).objects);
    }
  }

  lemma Associate(xs: seq<string>, ys: seq<string>, zs: seq<string>)
    ensures xs + (ys + zs) == (xs + ys) + zs
  {
  }

  /** The first object is cut off the same way whatever follows it. */
  lemma SplitHead(a: string, b: string)
    requires EndFrom(FRESH, a) < |a|
    ensures var end := EndFrom(FRESH, a);
      var tail := Split(a[end + 1..] + b);
      Split(a + b) == Pieces([Strip(a[..end + 1])] + tail.objects, tail.rest)
  {
    var end := EndFrom(FRESH, a);
    ScanConcat(FRESH, a, b);
    assert (a + b)[..end + 1] == a[..end + 1];
    assert (a + b)[end + 1..] == a[end + 1..] + b;
  }

  // ---- The memoised parser --------------------------------------------------------------------------------------

  datatype Parser = Parser(buffer: string, find: Find, offset: nat)

  /** What is remembered is what a scan of the prefix would find: its state, and no object end inside it. */
  predicate MemoAgrees(p: Parser) {
    && p.offset <= |p.buffer|
    && p.find == After(FRESH, p.buffer[..p.offset])
    && EndFrom(FRESH, p.buffer[..p.offset]) == p.offset
  }

  /** What popMessage hands to the JSON parser, the state it leaves, and how many characters its loop looked at. */
  datatype Popping = Popping(text: Option<string>, after: Parser, examined: nat)

  /** popMessage scans on from the memo. */
  function Pop(p: Parser): Popping
    requires p.offset <= |p.buffer|
  {
    var ahead := p.buffer[p.offset..];
    var end := EndFrom(p.find, ahead);
    if end == |ahead| then Popping(None, Parser(p.buffer, After(p.find, ahead), |p.buffer|), end)
    else
      var cut := p.offset + end + 1;
      Popping(Some(Strip(p.buffer[..cut])), Parser(p.buffer[cut..], FRESH, 0), end + 1)
  }

  lemma PopAgrees(p: Parser)
    requires MemoAgrees(p)
    ensures MemoAgrees(Pop(p).after)
    ensures EndFrom(FRESH, p.buffer) == p.offset + EndFrom(p.find, p.buffer[p.offset..])
  {
    assert p.buffer == p.buffer[..p.offset] + p.buffer[p.offset..];
    ScanConcat(FRESH, p.buffer[..p.offset], p.buffer[p.offset..]);
    assert p.buffer[..|p.buffer|] == p.buffer;
  }

  lemma PopSplits(p: Parser)
    requires MemoAgrees(p)
    ensures var popped, whole := Pop(p), Split(p.buffer);
      match popped.text
      case None => whole == Pieces([], p.buffer) && popped.after.buffer == p.buffer
      case Some(text) =>
        whole.objects == [text] + Split(popped.after.buffer).objects && whole.rest == Split(popped.after.buffer).rest
  {
    PopAgrees(p);
  }

  class StreamParser {
    var buffer: string
    var find: Find
    var offset: nat

    function View(): Parser
      reads this
    {
      Parser(buffer, find, offset)
    }

    constructor ()
      ensures View() == Parser("", FRESH, 0)
    {
      buffer, find, offset := "", FRESH, 0;
    }

    method Feed(text: string)
      modifies this`buffer
      ensures View() == old(View()).(buffer := old(buffer) + text)
    {
      buffer := buffer + text;
    }

    method FindCompleteObjectEnd() returns (position: nat)
      requires offset <= |buffer|
      modifies this`find, this`offset
      ensures position == old(offset) + EndFrom(old(find), buffer[old(offset)..]) == offset
      ensures position == |buffer| ==> find == After(old(find), buffer[old(offset)..])
    {
      ghost var ahead := buffer[offset..];
      while offset != |buffer|
        invariant old(offset) <= offset <= |buffer|
        invariant EndFrom(old(find), ahead) == offset - old(offset) + EndFrom(find, buffer[offset..])
        invariant After(old(find), ahead) == After(find, buffer[offset..])
        decreases |buffer| - offset
      {
        var c := buffer[offset];
        if c == '{' && !find.inside {
          find := find.(curly := find.curly + 1);
        } else if c == '}' && !find.inside {
          if find.curly - 1 == 0 {
            return offset;
          }
          find := find.(curly := find.curly - 1);
        } else if c == '"' && !find.escape {
          find := find.(inside := !find.inside);
        } else if c == '\\' {
          find := find.(escape := !find.escape);
        }
        if c != '\\' && find.escape {
          find := find.(escape := false);
        }
        offset := offset + 1;
      }
      return |buffer|;
    }

    method ConsumeObject(end: nat) returns (result: string)
      requires end <= |buffer|
      modifies this
      ensures result == Strip(old(buffer)[..end])
      ensures View() == Parser(old(buffer)[end..], FRESH, 0)
    {
      var start := 0;
      while start != end && IsSpace(buffer[start])
        invariant start <= end
        invariant Strip(buffer[..end]) == Strip(buffer[start..end])
        decreases end - start
      {
        start := start + 1;
      }
      result := buffer[start..end];
      buffer := buffer[end..];
      find, offset := FRESH, 0;
    }

    /** The raw text that is handed to the JSON parser, which may still reject it. */
    method PopMessage() returns (text: Option<string>)
      requires offset <= |buffer|
      modifies this
      ensures text == Pop(old(View())).text
      ensures View() == Pop(old(View())).after
    {
      var position := FindCompleteObjectEnd();
      if position == |buffer| {
        return None;
      }
      var consumed := ConsumeObject(position + 1);
      return Some(consumed);
    }
  }

  // ---- Every interleaving of feeding and popping ----------------------------------------------------------------

  datatype Event = FeedText(text: string) | PopText

  datatype Trace = Begin | Then(before: Trace, event: Event)

  function Step(p: Parser, e: Event): Parser
    requires p.offset <= |p.buffer|
  {
    match e
    case FeedText(text) => p.(buffer := p.buffer + text)
    case PopText => Pop(p).after
  }

  function Run(trace: Trace): (p: Parser)
    ensures p.offset <= |p.buffer|
  {
    match trace
    case Begin => Parser("", FRESH, 0)
    case Then(before, e) => Step(Run(before), e)
  }

  function Fed(trace: Trace): string {
    match trace
    case Begin => ""
    case Then(before, FeedText(text)) => Fed(before) + text
    case Then(before, PopText) => Fed(before)
  }

  /** The texts popped so far. */
  function Output(trace: Trace): seq<string> {
    match trace
    case Begin => []
    case Then(before, FeedText(_)) => Output(before)
    case Then(before, PopText) =>
      match Pop(Run(before)).text
      case None => Output(before)
      case Some(text) => Output(before) + [text]
  }

  /** How many characters the scanning loop has looked at in the whole run. */
  function Examined(trace: Trace): nat {
    match trace
    case Begin => 0
    case Then(before, FeedText(_)) => Examined(before)
    case Then(before, PopText) => Examined(before) + Pop(Run(before)).examined
  }

  lemma {:induction false} MemoAlwaysAgrees(trace: Trace)
    ensures MemoAgrees(Run(trace))
  {
    match trace
    case Begin =>
    case Then(before, e) =>
      MemoAlwaysAgrees(before);
      match e
      case FeedText(text) =>
        assert (Run(before).buffer + text)[..Run(before).offset] == Run(before).buffer[..Run(before).offset];
      case PopText => PopAgrees(Run(before));
  }

  /** What has been popped together with what the buffer would still give is the from-scratch split of all the
      text ever fed, well-formed or not, however it was chunked and whenever it was popped. */
  lemma {:induction false} NothingLostOrInvented(trace: Trace)
    ensures Output(trace) + Split(Run(trace).buffer).objects == Split(Fed(trace)).objects
    ensures Split(Run(trace).buffer).rest == Split(Fed(trace)).rest
  {
    match trace
    case Begin =>
    case Then(before, e) =>
      NothingLostOrInvented(before);
      match e
      case FeedText(text) =>
        var split := Split(Run(before).buffer);
        SplitConcat(Run(before).buffer, text);
        SplitConcat(Fed(before), text);
        Associate(Output(before), split.objects, Split(split.rest + text).objects);
      case PopText =>
        MemoAlwaysAgrees(before);
        PopSplits(Run(before));
        var popped := Pop(Run(before));
        if popped.text.Some? {
          Associate(Output(before), [popped.text.value], Split(popped.after.buffer).objects);
        }
  }

  /** No character is looked at twice: the loop has looked at exactly what is no longer ahead of it. */
  lemma {:induction false} ExaminedAtMostOnce(trace: Trace)
    ensures Examined(trace) + |Run(trace).buffer| - Run(trace).offset == |Fed(trace)|
  {
    match trace
    case Begin =>
    case Then(before, e) =>
      ExaminedAtMostOnce(before);
  }

  function Drain(trace: Trace, pops: nat): Trace
    decreases pops
  {
    if pops == 0 then trace else Drain(Then(trace, PopText), pops - 1)
  }

  /** Popping as often as the buffer has objects gets everything out. */
  lemma {:induction false} DrainingYieldsAll(trace: Trace, pops: nat)
    requires pops >= |Split(Run(trace).buffer).objects|
    ensures Output(Drain(trace, pops)) == Split(Fed(trace)).objects
    ensures Fed(Drain(trace, pops)) == Fed(trace)
    decreases pops
  {
    NothingLostOrInvented(trace);
    MemoAlwaysAgrees(trace);
    PopSplits(Run(trace));
    if pops > 0 {
      DrainingYieldsAll(Then(trace, PopText), pops - 1);
    }
  }

  /** on_text feeds once and pops once per event, so at most one request is taken per event: as many
      have been taken as could be, given that. */
  lemma OnTextTakesOne(trace: Trace, text: string)
    ensures var before, after := Output(trace), Output(Then(Then(trace, FeedText(text)), PopText));
      var complete := Split(Fed(trace) + text).objects;
      after == if |before| < |complete| then complete[..|before| + 1] else complete
  {
    var fed := Then(trace, FeedText(text));
    NothingLostOrInvented(fed);
    MemoAlwaysAgrees(fed);
    PopSplits(Run(fed));
    assert Output(fed) == Output(trace);
  }
}
