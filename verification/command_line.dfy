/** Splitting a command line (app/src/util/command_line_splitter.js), and the quoter it undoes. */
module CommandLines {
  import opened JsTexts

  datatype State = State(inQuote: bool, slashOnce: bool, accumulator: string, res: seq<string>)

  /** Matches /^\s*$/. */
  predicate IsBlank(s: string) {
    forall i :: 0 <= i < |s| ==> IsSpace(s[i])
  }

  /** One turn of the loop. */
  function Step(s: State, c: char): State {
    if c == '\\' then
      if s.slashOnce then s.(accumulator := s.accumulator + "\\", slashOnce := false) else s.(slashOnce := true)
    else if c == '"' then
      if s.slashOnce then s.(accumulator := s.accumulator + "\"", slashOnce := false) else s.(inQuote := !s.inQuote)
    else if c == ' ' || c == '\t' || c == '\n' then
      if s.inQuote then s.(accumulator := s.accumulator + [c])
      else if s.slashOnce then s.(accumulator := s.accumulator + [c], slashOnce := false)
      else s.(res := if IsBlank(s.accumulator) then s.res else s.res + [s.accumulator], accumulator := "")
    else s.(accumulator := s.accumulator + [c], slashOnce := false)
  }

  function Feed(s: State, text: string): State
    decreases |text|
  {
    if text == "" then s else Feed(Step(s, text[0]), text[1..])
  }

  function Resumed(res: seq<string>): State {
    State(false, false, "", res)
  }

  /** What the end of the text does to a state. */
  function Finished(s: State): seq<string> {
    var last := if s.slashOnce then s.accumulator + "\\" else s.accumulator;
    if last == "" then s.res else s.res + [last]
  }

  function Parts(command: string): seq<string> {
    Finished(Feed(Resumed([]), command))
  }

  datatype Command = Command(command: string, arguments: seq<string>)

  function ToCommand(parts: seq<string>): Command {
    if parts == [] then Command("", []) else Command(parts[0], parts[1..])
  }

  method SplitCommandLine(command: string) returns (result: Command)
    ensures result == ToCommand(Parts(command))
  {
    var res: seq<string> := [];
    var inQuote, accumulator, slashOnce := false, "", false;
    for i := 0 to |command|
      invariant Feed(State(inQuote, slashOnce, accumulator, res), command[i..])
             == Feed(Resumed([]), command)
    {
      var c := command[i];
      assert command[i..][1..] == command[i + 1..];
      if c == '\\' {
        if slashOnce {
          accumulator := accumulator + "\\";
          slashOnce := false;
        } else {
          slashOnce := true;
        }
      } else if c == '"' {
        if slashOnce {
          accumulator := accumulator + "\"";
          slashOnce := false;
        } else {
          inQuote := !inQuote;
        }
      } else if c == ' ' || c == '\t' || c == '\n' {
        if inQuote {
          accumulator := accumulator + [c];
        } else if slashOnce {
          accumulator := accumulator + [c];
          slashOnce := false;
        } else {
          if !IsBlank(accumulator) {
            res := res + [accumulator];
          }
          accumulator := "";
        }
      } else {
        if slashOnce {
          slashOnce := false;
        }
        accumulator := accumulator + [c];
      }
    }
    if slashOnce {
      accumulator := accumulator + "\\";
    }
    if |accumulator| > 0 {
      res := res + [accumulator];
    }
    if |res| >= 1 {
      return Command(res[0], res[1..]);
    }
    return Command("", []);
  }

  // ---- The quoter -----------------------------------------------------------------------------------------------

  function Escape(arg: string): string {
    if arg == "" then ""
    else (if arg[0] == '\\' || arg[0] == '"' then ['\\', arg[0]] else [arg[0]]) + Escape(arg[1..])
  }

  function Quote(arg: string): string {
    "\"" + Escape(arg) + "\""
  }

  function Join(args: seq<string>): string {
    if args == [] then ""
    else if |args| == 1 then Quote(args[0])
    else Quote(args[0]) + " " + Join(args[1..])
  }

  lemma {:induction false} FeedAppend(s: State, a: string, b: string)
    ensures Feed(s, a + b) == Feed(Feed(s, a), b)
    decreases |a|
  {
    if a == "" {
      assert a + b == b;
    } else {
      assert (a + b)[1..] == a[1..] + b;
      FeedAppend(Step(s, a[0]), a[1..], b);
    }
  }

  lemma FeedOne(s: State, c: char)
    ensures Feed(s, [c]) == Step(s, c)
  {
    assert [c][1..] == "";
  }

  lemma FeedTwo(s: State, c: char, d: char)
    ensures Feed(s, [c, d]) == Step(Step(s, c), d)
  {
    assert [c, d][1..] == [d];
    FeedOne(Step(s, c), d);
  }

  lemma {:induction false} FeedEscaped(s: State, arg: string)
    requires s.inQuote && !s.slashOnce
    ensures Feed(s, Escape(arg)) == s.(accumulator := s.accumulator + arg)
    decreases |arg|
  {
    if arg == "" {
      assert s.accumulator + arg == s.accumulator;
    } else {
      var c := arg[0];
      var head := if c == '\\' || c == '"' then ['\\', c] else [c];
      var next := s.(accumulator := s.accumulator + [c]);
      FeedAppend(s, head, Escape(arg[1..]));
      FeedOne(s, c);
      FeedTwo(s, '\\', c);
      assert Feed(s, head) == next;
      FeedEscaped(next, arg[1..]);
      assert next.accumulator + arg[1..] == s.accumulator + arg;
    }
  }

  /** A quoted argument comes out of the splitter as it went into the quoter, whatever it contains. */
  lemma FeedQuoted(s: State, arg: string)
    requires !s.inQuote && !s.slashOnce
    ensures Feed(s, Quote(arg)) == s.(accumulator := s.accumulator + arg)
  {
    var open := s.(inQuote := true);
    FeedOne(s, '"');
    FeedAppend(s, "\"", Escape(arg));
    FeedEscaped(open, arg);
    FeedAppend(s, "\"" + Escape(arg), "\"");
    FeedOne(open.(accumulator := s.accumulator + arg), '"');
  }

  /** What the splitter keeps: every argument but the last is dropped when it is blank, the last when it is empty. */
  function Survivors(args: seq<string>): seq<string> {
    if args == [] then []
    else if |args| == 1 then if args[0] == "" then [] else args
    else (if IsBlank(args[0]) then [] else [args[0]]) + Survivors(args[1..])
  }

  lemma FeedSeparated(res: seq<string>, arg: string, more: string)
    ensures Feed(Resumed(res), Quote(arg) + " " + more)
         == Feed(Resumed(if IsBlank(arg) then res else res + [arg]), more)
  {
    var s := Resumed(res);
    FeedQuoted(s, arg);
    assert "" + arg == arg;
    FeedAppend(s, Quote(arg), " ");
    FeedOne(s.(accumulator := arg), ' ');
    FeedAppend(s, Quote(arg) + " ", more);
  }

  lemma {:induction false} FeedJoined(res: seq<string>, args: seq<string>)
    ensures Finished(Feed(Resumed(res), Join(args))) == res + Survivors(args)
    decreases |args|
  {
    if args == [] {
      assert res + [] == res;
    } else if |args| == 1 {
      FeedQuoted(Resumed(res), args[0]);
      assert "" + args[0] == args[0] && args == [args[0]] && res + [] == res;
    } else {
      FeedSeparated(res, args[0], Join(args[1..]));
      FeedJoined(if IsBlank(args[0]) then res else res + [args[0]], args[1..]);
      SurvivorsFrom(res, args);
    }
  }

  lemma {:induction false} SurvivorsFrom(res: seq<string>, args: seq<string>)
    requires |args| > 1
    ensures (if IsBlank(args[0]) then res else res + [args[0]]) + Survivors(args[1..]) == res + Survivors(args)
  {
    assert res + [args[0]] + Survivors(args[1..]) == res + ([args[0]] + Survivors(args[1..]));
  }

  /** For every list of arguments, splitting what the quoter joined gives the survivors, in order. */
  lemma SplitAfterJoin(args: seq<string>)
    ensures Parts(Join(args)) == Survivors(args)
  {
    FeedJoined([], args);
    assert [] + Survivors(args) == Survivors(args);
  }

  /** The splitter undoes the quoter exactly when each argument but the last has a character that is not white space
      and the last is not empty. */
  lemma {:induction false} RoundTripIff(args: seq<string>)
    ensures Parts(Join(args)) == args <==>
      (forall i :: 0 <= i < |args| - 1 ==> !IsBlank(args[i])) && (args != [] ==> args[|args| - 1] != "")
  {
    SplitAfterJoin(args);
    AllSurviveIff(args);
  }

  lemma {:induction false} AllSurviveIff(args: seq<string>)
    ensures |Survivors(args)| <= |args|
    ensures |Survivors(args)| == |args| ==> Survivors(args) == args
    ensures |Survivors(args)| == |args| <==>
      (forall i :: 0 <= i < |args| - 1 ==> !IsBlank(args[i])) && (args != [] ==> args[|args| - 1] != "")
    decreases |args|
  {
    if |args| > 1 {
      AllSurviveIff(args[1..]);
      assert args == [args[0]] + args[1..];
      assert forall i :: 0 <= i < |args| - 2 ==> args[1..][i] == args[i + 1];
      assert args[1..][|args| - 2] == args[|args| - 1];
    }
  }

  // ---- What people type -------------------------------------------------------------------------------------------

  /** The characters that end an argument. */
  predicate IsSeparator(c: char) {
    c in [' ', '\t', '\n']
  }

  predicate IsGap(s: string) {
    forall c :: c in s ==> IsSeparator(c)
  }

  /** An argument that needs no quotes: nothing in it means anything to the splitter, and something in it shows. */
  predicate IsWord(s: string) {
    (forall c :: c in s ==> c !in [' ', '\t', '\n', '"', '\\']) && exists c :: c in s && c as int !in WHITE_SPACE
  }

  /** A word and what stands behind it. */
  datatype Typed = Typed(word: string, gap: string)

  /** Words with separators behind all of them, and perhaps behind the last. */
  predicate TypedOk(typed: seq<Typed>) {
    && (forall i :: 0 <= i < |typed| ==> IsWord(typed[i].word) && IsGap(typed[i].gap))
    && (forall i :: 0 <= i < |typed| - 1 ==> typed[i].gap != "")
  }

  function TextOf(typed: seq<Typed>): string {
    if typed == [] then "" else typed[0].word + typed[0].gap + TextOf(typed[1..])
  }

  function Words(typed: seq<Typed>): seq<string> {
    seq(|typed|, i requires 0 <= i < |typed| => typed[i].word)
  }

  lemma {:induction false} FeedPlain(s: State, word: string)
    requires !s.slashOnce && forall c :: c in word ==> c !in [' ', '\t', '\n', '"', '\\']
    ensures Feed(s, word) == s.(accumulator := s.accumulator + word)
    decreases |word|
  {
    if word == "" {
      assert s.accumulator + word == s.accumulator;
    } else {
      assert word[0] in word;
      var next := s.(accumulator := s.accumulator + [word[0]]);
      FeedPlain(next, word[1..]);
      assert next.accumulator + word[1..] == s.accumulator + word;
    }
  }

  lemma {:induction false} FeedGap(s: State, gap: string)
    requires !s.inQuote && !s.slashOnce && IsGap(gap)
    ensures Feed(s, gap) ==
      if gap == "" then s else Resumed(if IsBlank(s.accumulator) then s.res else s.res + [s.accumulator])
    decreases |gap|
  {
    if gap != "" {
      assert gap[0] in gap;
      assert forall c :: c in gap[1..] ==> c in gap;
      FeedGap(Step(s, gap[0]), gap[1..]);
    }
  }

  lemma WordIsNotBlank(s: string)
    requires IsWord(s)
    ensures s != "" && !IsBlank(s)
  {
    var c :| c in s && c as int !in WHITE_SPACE;
    IsSpaceIff(c);
  }

  lemma {:induction false} FeedTyped(res: seq<string>, typed: seq<Typed>)
    requires TypedOk(typed)
    ensures Finished(Feed(Resumed(res), TextOf(typed))) == res + Words(typed)
    decreases |typed|
  {
    if typed == [] {
      assert res + Words(typed) == res;
    } else {
      var word, gap, s := typed[0].word, typed[0].gap, Resumed(res);
      WordIsNotBlank(word);
      FeedAppend(s, word + gap, TextOf(typed[1..]));
      FeedAppend(s, word, gap);
      FeedPlain(s, word);
      assert "" + word == word;
      FeedGap(s.(accumulator := word), gap);
      if gap == "" {
        assert typed[1..] == [] && Words(typed) == [word];
      } else {
        FeedTyped(res + [word], typed[1..]);
        assert res + [word] + Words(typed[1..]) == res + Words(typed);
      }
    }
  }

  /** Without quotes and backslashes, the parts are the words between the separators, whichever and however many those
      are, and in front of the first word as well. The first part is the command. */
  lemma TypedWords(lead: string, typed: seq<Typed>)
    requires IsGap(lead) && TypedOk(typed)
    ensures Parts(lead + TextOf(typed)) == Words(typed)
    ensures ToCommand(Parts(lead + TextOf(typed))) ==
      if typed == [] then Command("", []) else Command(typed[0].word, Words(typed[1..]))
  {
    FeedAppend(Resumed([]), lead, TextOf(typed));
    FeedGap(Resumed([]), lead);
    FeedTyped([], typed);
    assert [] + Words(typed) == Words(typed);
    if typed != [] {
      assert Words(typed)[1..] == Words(typed[1..]);
    }
  }

  // ---- Anywhere in a text -----------------------------------------------------------------------------------------

  /** The state after a text. */
  function After(text: string): State {
    Feed(Resumed([]), text)
  }

  lemma FeedFrom(before: string, more: string)
    ensures Parts(before + more) == Finished(Feed(After(before), more))
  {
    FeedAppend(Resumed([]), before, more);
  }

  /** What was split off before has no influence on what follows. */
  lemma {:induction false} SplitOffStays(s: State, done: seq<string>, more: string)
    ensures Finished(Feed(s.(res := done + s.res), more)) == done + Finished(Feed(s, more))
    decreases |more|
  {
    var later := s.(res := done + s.res);
    if more != "" {
      var next := Step(s, more[0]);
      assert done + s.res + [s.accumulator] == done + (s.res + [s.accumulator]);
      assert Step(later, more[0]) == next.(res := done + next.res);
      SplitOffStays(next, done, more[1..]);
    } else {
      var last := if s.slashOnce then s.accumulator + "\\" else s.accumulator;
      assert done + s.res + [last] == done + (s.res + [last]);
    }
  }

  /** A separator that is neither quoted nor escaped ends an argument, which is dropped if it is blank, and what comes
      behind is split as if it stood alone. */
  lemma SeparatorSplits(before: string, c: char, after: string)
    requires !After(before).inQuote && !After(before).slashOnce && IsSeparator(c)
    ensures var s := After(before);
      Parts(before + [c] + after) == s.res + (if IsBlank(s.accumulator) then [] else [s.accumulator]) + Parts(after)
  {
    var s := After(before);
    var done := s.res + (if IsBlank(s.accumulator) then [] else [s.accumulator]);
    FeedFrom(before + [c], after);
    FeedAppend(Resumed([]), before, [c]);
    FeedOne(s, c);
    assert After(before + [c]) == Resumed(done) && done + [] == done;
    SplitOffStays(Resumed([]), done, after);
  }

  /** A backslash that is not itself escaped takes the meaning of a quote and a backslash behind it, outside quotes also
      of a separator, and vanishes in front of anything else. */
  lemma BackslashIsTaken(before: string, c: char, after: string)
    requires !After(before).slashOnce && (After(before).inQuote ==> !IsSeparator(c))
    ensures var s := After(before);
      Parts(before + ['\\', c] + after) == Finished(Feed(s.(accumulator := s.accumulator + [c]), after))
  {
    FeedFrom(before + ['\\', c], after);
    FeedAppend(Resumed([]), before, ['\\', c]);
    FeedTwo(After(before), '\\', c);
  }

  /** In quotes a separator is taken as it is, and a backslash in front of one still is waiting behind it. */
  lemma QuotedSeparator(before: string, c: char, after: string)
    requires After(before).inQuote && IsSeparator(c)
    ensures var s := After(before);
      Parts(before + [c] + after) == Finished(Feed(s.(accumulator := s.accumulator + [c]), after))
  {
    FeedFrom(before + [c], after);
    FeedAppend(Resumed([]), before, [c]);
    FeedOne(After(before), c);
  }

  /** A quote opens or closes and leaves no trace, so quotes may stand in the middle of an argument. */
  lemma QuoteToggles(before: string, after: string)
    requires !After(before).slashOnce
    ensures var s := After(before); Parts(before + "\"" + after) == Finished(Feed(s.(inQuote := !s.inQuote), after))
  {
    FeedFrom(before + "\"", after);
    FeedAppend(Resumed([]), before, "\"");
    FeedOne(After(before), '"');
  }

  /** A backslash at the end stands for itself. */
  lemma BackslashAtTheEnd(before: string)
    requires !After(before).slashOnce
    ensures Parts(before + "\\") == After(before).res + [After(before).accumulator + "\\"]
  {
    FeedFrom(before, "\\");
    FeedOne(After(before), '\\');
  }
}
