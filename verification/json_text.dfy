/** JSON texts as sections 2, 4 and 7 of RFC 8259 let a printer write them, and what the framer makes of them. */
module JsonTexts {
  import opened StreamParsers

  /** One unit between the quotes of a string: a character as itself, `\` and one character, or `\u` and four. */
  datatype Unit = Plain(c: char) | Short(c: char) | Hex(d0: char, d1: char, d2: char, d3: char)

  /** `Literal` covers null, true, false and numbers. White space may stand after an opening bracket, around
      member names and, through `Padded`, around values. */
  datatype Json =
    | Literal(text: string)
    | Str(units: seq<Unit>)
    | Arr(gap: string, elements: seq<Json>)
    | Obj(gap: string, members: seq<Member>)
    | Padded(before: string, value: Json, after: string)

  datatype Member = Member(before: string, name: seq<Unit>, after: string, value: Json)

  // ---- Printing -------------------------------------------------------------------------------------------------

  function PrintUnit(u: Unit): string {
    match u
    case Plain(c) => [c]
    case Short(c) => ['\\', c]
    case Hex(d0, d1, d2, d3) => ['\\', 'u', d0, d1, d2, d3]
  }

  function PrintUnits(units: seq<Unit>): string {
    if units == [] then "" else PrintUnit(units[0]) + PrintUnits(units[1..])
  }

  function PrintString(units: seq<Unit>): string {
    "\"" + PrintUnits(units) + "\""
  }

  function Print(j: Json): string
    decreases j, 1
  {
    match j
    case Literal(text) => text
    case Str(units) => PrintString(units)
    case Arr(gap, elements) => "[" + gap + PrintElements(elements) + "]"
    case Obj(gap, members) => "{" + (gap + PrintMembers(members)) + "}"
    case Padded(before, value, after) => before + Print(value) + after
  }

  function PrintElements(elements: seq<Json>): string
    decreases elements, 0
  {
    if elements == [] then ""
    else Print(elements[0]) + (if |elements| == 1 then "" else ",") + PrintElements(elements[1..])
  }

  function PrintMember(m: Member): string
    decreases m, 2
  {
    m.before + PrintString(m.name) + (m.after + ":") + Print(m.value)
  }

  function PrintMembers(members: seq<Member>): string
    decreases members, 0
  {
    if members == [] then ""
    else PrintMember(members[0]) + (if |members| == 1 then "" else ",") + PrintMembers(members[1..])
  }

  // ---- What the grammar allows ----------------------------------------------------------------------------------

  predicate IsHexDigit(c: char) {
    '0' <= c <= '9' || 'a' <= c <= 'f' || 'A' <= c <= 'F'
  }

  predicate UnitOk(u: Unit) {
    match u
    case Plain(c) => c >= ' ' && c != '"' && c != '\\'
    case Short(c) => c in "\"\\/bfnrt"
    case Hex(d0, d1, d2, d3) => IsHexDigit(d0) && IsHexDigit(d1) && IsHexDigit(d2) && IsHexDigit(d3)
  }

  predicate UnitsOk(units: seq<Unit>) {
    forall u :: u in units ==> UnitOk(u)
  }

  predicate IsGap(s: string) {
    forall c :: c in s ==> c == ' ' || c == '\t' || c == '\n' || c == '\r'
  }

  /** No character of a number or of null, true or false means anything to the framer. */
  predicate IsLiteral(s: string) {
    forall c :: c in s ==> '0' <= c <= '9' || 'a' <= c <= 'z' || c == 'E' || c == '+' || c == '-' || c == '.'
  }

  predicate Ok(j: Json)
    decreases j, 1
  {
    match j
    case Literal(text) => IsLiteral(text)
    case Str(units) => UnitsOk(units)
    case Arr(gap, elements) => IsGap(gap) && forall e :: e in elements ==> Ok(e)
    case Obj(gap, members) => IsGap(gap) && forall m :: m in members ==> MemberOk(m)
    case Padded(before, value, after) => IsGap(before) && Ok(value) && IsGap(after)
  }

  predicate MemberOk(m: Member)
    decreases m, 2
  {
    IsGap(m.before) && UnitsOk(m.name) && IsGap(m.after) && Ok(m.value)
  }

  // ---- Scanning printed text ------------------------------------------------------------------------------------

  /** The scanner reads all of `s` without stopping and goes from `f` to `g`. */
  predicate Passes(f: Find, s: string, g: Find) {
    After(f, s) == g && EndFrom(f, s) == |s|
  }

  lemma Chain(f: Find, s: string, g: Find, t: string, h: Find)
    requires Passes(f, s, g) && Passes(g, t, h)
    ensures Passes(f, s + t, h)
  {
    ScanConcat(f, s, t);
  }

  /** Outside strings, and not at the outermost level. */
  predicate Nested(f: Find) {
    f.curly >= 1 && !f.inside && !f.escape
  }

  predicate IsNeutral(s: string) {
    forall c :: c in s ==> c != '{' && c != '}' && c != '"' && c != '\\'
  }

  lemma {:induction false} NeutralPasses(f: Find, s: string)
    requires IsNeutral(s) && !f.escape
    ensures Passes(f, s, f)
    decreases |s|
  {
    if s != [] {
      assert s[0] in s;
      assert Advance(f, s[0]) == f;
      assert forall c :: c in s[1..] ==> c in s;
      NeutralPasses(f, s[1..]);
    }
  }

  lemma UnitPasses(f: Find, u: Unit)
    requires f.inside && !f.escape && UnitOk(u)
    ensures Passes(f, PrintUnit(u), f)
  {
    match u
    case Plain(c) =>
    case Short(c) =>
      EscapePasses(f, c);
    case Hex(d0, d1, d2, d3) =>
      EscapePasses(f, 'u');
      NeutralPasses(f, [d0, d1, d2, d3]);
      Chain(f, ['\\', 'u'], f, [d0, d1, d2, d3], f);
      assert ['\\', 'u'] + [d0, d1, d2, d3] == PrintUnit(u);
  }

  /** A backslash inside a string takes the next character with it, quote or backslash included. */
  lemma EscapePasses(f: Find, c: char)
    requires f.inside && !f.escape
    ensures Passes(f, ['\\', c], f)
  {
    var escaped := f.(escape := true);
    Chain(f, ['\\'], escaped, [c], f);
    assert ['\\'] + [c] == ['\\', c];
  }

  lemma {:induction false} UnitsPass(f: Find, units: seq<Unit>)
    requires f.inside && !f.escape && UnitsOk(units)
    ensures Passes(f, PrintUnits(units), f)
    decreases |units|
  {
    if units != [] {
      UnitPasses(f, units[0]);
      UnitsPass(f, units[1..]);
      Chain(f, PrintUnit(units[0]), f, PrintUnits(units[1..]), f);
    }
  }

  /** Whatever braces, quotes and backslashes a string holds, it leaves the scanner as it was. */
  lemma StringPasses(f: Find, units: seq<Unit>)
    requires Nested(f) && UnitsOk(units)
    ensures Passes(f, PrintString(units), f)
  {
    var within := f.(inside := true);
    UnitsPass(within, units);
    Chain(f, "\"", within, PrintUnits(units), within);
    Chain(f, "\"" + PrintUnits(units), within, "\"", f);
  }

  lemma {:induction false} ValuePasses(f: Find, j: Json)
    requires Nested(f) && Ok(j)
    ensures Passes(f, Print(j), f)
    decreases j, 1
  {
    match j
    case Literal(text) => NeutralPasses(f, text);
    case Str(units) => StringPasses(f, units);
    case Arr(gap, elements) =>
      ElementsPass(f, elements);
      NeutralPasses(f, "[" + gap);
      NeutralPasses(f, "]");
      Chain(f, "[" + gap, f, PrintElements(elements), f);
      Chain(f, "[" + gap + PrintElements(elements), f, "]", f);
    case Obj(gap, members) =>
      var deeper := f.(curly := f.curly + 1);
      BodyPasses(deeper, gap, members);
      Chain(f, "{", deeper, gap + PrintMembers(members), deeper);
      Chain(f, "{" + (gap + PrintMembers(members)), deeper, "}", f);
    case Padded(before, value, after) =>
      NeutralPasses(f, before);
      ValuePasses(f, value);
      NeutralPasses(f, after);
      Chain(f, before, f, Print(value), f);
      Chain(f, before + Print(value), f, after, f);
  }

  lemma {:induction false} ElementsPass(f: Find, elements: seq<Json>)
    requires Nested(f) && forall e :: e in elements ==> Ok(e)
    ensures Passes(f, PrintElements(elements), f)
    decreases elements, 0
  {
    if elements != [] {
      var comma := if |elements| == 1 then "" else ",";
      ValuePasses(f, elements[0]);
      NeutralPasses(f, comma);
      ElementsPass(f, elements[1..]);
      Chain(f, Print(elements[0]), f, comma, f);
      Chain(f, Print(elements[0]) + comma, f, PrintElements(elements[1..]), f);
    }
  }

  lemma {:induction false} BodyPasses(f: Find, gap: string, members: seq<Member>)
    requires Nested(f) && IsGap(gap) && forall m :: m in members ==> MemberOk(m)
    ensures Passes(f, gap + PrintMembers(members), f)
    decreases members, 1
  {
    NeutralPasses(f, gap);
    MembersPass(f, members);
    Chain(f, gap, f, PrintMembers(members), f);
  }

  lemma {:induction false} MembersPass(f: Find, members: seq<Member>)
    requires Nested(f) && forall m :: m in members ==> MemberOk(m)
    ensures Passes(f, PrintMembers(members), f)
    decreases members, 0
  {
    if members != [] {
      var comma := if |members| == 1 then "" else ",";
      MemberPasses(f, members[0]);
      NeutralPasses(f, comma);
      MembersPass(f, members[1..]);
      Chain(f, PrintMember(members[0]), f, comma, f);
      Chain(f, PrintMember(members[0]) + comma, f, PrintMembers(members[1..]), f);
    }
  }

  lemma {:induction false} MemberPasses(f: Find, m: Member)
    requires Nested(f) && MemberOk(m)
    ensures Passes(f, PrintMember(m), f)
    decreases m, 2
  {
    NeutralPasses(f, m.before);
    StringPasses(f, m.name);
    NeutralPasses(f, m.after + ":");
    ValuePasses(f, m.value);
    Chain(f, m.before, f, PrintString(m.name), f);
    Chain(f, m.before + PrintString(m.name), f, m.after + ":", f);
    Chain(f, m.before + PrintString(m.name) + (m.after + ":"), f, Print(m.value), f);
  }

  /** The framer stops at the last brace of a top-level object, and nowhere before. */
  lemma ObjectEndsAtItsBrace(j: Json)
    requires j.Obj? && Ok(j)
    ensures EndFrom(FRESH, Print(j)) == |Print(j)| - 1
  {
    var deeper := Find(1, false, false);
    var body := j.gap + PrintMembers(j.members);
    BodyPasses(deeper, j.gap, j.members);
    Chain(FRESH, "{", deeper, body, deeper);
    ScanConcat(FRESH, "{" + body, "}");
  }

  // ---- A stream of requests -------------------------------------------------------------------------------------

  /** An object and the white space in front of it. */
  datatype Request = Request(lead: string, body: Json)

  /** The white space of JSON, and two more characters that the framer takes for white space. */
  predicate IsLead(s: string) {
    forall c :: c in s ==> c in [' ', '\t', '\n', '\r', '\U{000b}', '\U{000c}']
  }

  predicate RequestOk(r: Request) {
    IsLead(r.lead) && r.body.Obj? && Ok(r.body)
  }

  function TextOf(requests: seq<Request>, trailing: string): string {
    if requests == [] then trailing
    else requests[0].lead + Print(requests[0].body) + TextOf(requests[1..], trailing)
  }

  function Printed(requests: seq<Request>): seq<string> {
    seq(|requests|, i requires 0 <= i < |requests| => Print(requests[i].body))
  }

  /** The from-scratch split of a stream of printed objects is those objects. */
  lemma {:induction false} StreamSplits(requests: seq<Request>, trailing: string)
    requires forall r :: r in requests ==> RequestOk(r)
    requires IsLead(trailing)
    ensures Split(TextOf(requests, trailing)) == Pieces(Printed(requests), trailing)
    decreases |requests|
  {
    if requests == [] {
      NeutralPasses(FRESH, trailing);
    } else {
      assert requests[0] in requests;
      StreamSplits(requests[1..], trailing);
      FirstSplitsOff(requests[0], TextOf(requests[1..], trailing));
      assert Printed(requests) == [Print(requests[0].body)] + Printed(requests[1..]);
    }
  }

  lemma {:induction false} FirstSplitsOff(r: Request, more: string)
    requires RequestOk(r)
    ensures Split(r.lead + Print(r.body) + more)
         == Pieces([Print(r.body)] + Split(more).objects, Split(more).rest)
  {
    var text := r.lead + Print(r.body);
    RequestSplits(r);
    SplitHead(text, more);
    assert text[..|text|] == text && text[|text|..] + more == more;
  }

  lemma RequestSplits(r: Request)
    requires RequestOk(r)
    ensures var text := r.lead + Print(r.body);
      EndFrom(FRESH, text) == |text| - 1 && Strip(text) == Print(r.body)
  {
    NeutralPasses(FRESH, r.lead);
    ObjectEndsAtItsBrace(r.body);
    ScanConcat(FRESH, r.lead, Print(r.body));
    StripIs(r.lead, Print(r.body));
  }

  /** The framer undoes the printer under every chunking: popping to the end gives exactly the printed objects. */
  lemma RequestsComeBack(trace: Trace, requests: seq<Request>, trailing: string, pops: nat)
    requires forall r :: r in requests ==> RequestOk(r)
    requires IsLead(trailing)
    requires Fed(trace) == TextOf(requests, trailing) && pops >= |requests|
    ensures Output(Drain(trace, pops)) == Printed(requests)
  {
    StreamSplits(requests, trailing);
    NothingLostOrInvented(trace);
    DrainingYieldsAll(trace, pops);
  }

  /** At every moment, with any part of the stream fed, what was popped is an initial run of the printed objects. */
  lemma RequestsComeInOrder(trace: Trace, unfed: string, requests: seq<Request>, trailing: string)
    requires forall r :: r in requests ==> RequestOk(r)
    requires IsLead(trailing)
    requires Fed(trace) + unfed == TextOf(requests, trailing)
    ensures Output(trace) <= Printed(requests)
  {
    StreamSplits(requests, trailing);
    NothingLostOrInvented(trace);
    SplitConcat(Fed(trace), unfed);
  }
}
