/** Environments that inherit from each other (backend/src/backend/settings/environment.cpp,
    backend/src/backend/public_settings.cpp).
 */
module Environments {
  import opened Wrappers

  /** `inherits` holds the entries of the std::map in the order of their keys. */
  datatype Environment = Environment(path: seq<string>, variables: map<string, string>, inherits: seq<(string, string)>)

  // ---- Ordered sets of paths ------------------------------------------------------------------------------------

  /** std::toupper on ASCII, through which the case-insensitive comparison goes. */
  function Upper(c: char): char {
    if 'a' <= c <= 'z' then (c as int - 'a' as int + 'A' as int) as char else c
  }

  /** What a path is compared by. */
  function Key(s: string, insensitive: bool): string {
    if insensitive then seq(|s|, i requires 0 <= i < |s| => Upper(s[i])) else s
  }

  /** std::lexicographical_compare. */
  predicate Less(a: string, b: string)
    decreases |a|
  {
    b != "" && (a == "" || a[0] < b[0] || (a[0] == b[0] && Less(a[1..], b[1..])))
  }

  predicate Before(a: string, b: string, insensitive: bool) {
    Less(Key(a, insensitive), Key(b, insensitive))
  }

  /** The set holds one of the two at most. */
  predicate Same(a: string, b: string, insensitive: bool) {
    Key(a, insensitive) == Key(b, insensitive)
  }

  lemma {:induction false} LessIsOrder(a: string, b: string, c: string)
    ensures !Less(a, a)
    ensures Less(a, b) || Less(b, a) || a == b
    ensures Less(a, b) ==> !Less(b, a)
    ensures Less(a, b) && Less(b, c) ==> Less(a, c)
    decreases |a|
  {
    if a != "" {
      LessIsOrder(a[1..], if b == "" then "" else b[1..], if c == "" then "" else c[1..]);
      if b != "" && a[0] == b[0] && a[1..] == b[1..] {
        assert a == [a[0]] + a[1..] && b == [b[0]] + b[1..];
      }
    }
  }

  /** The first difference is at n, where `a` has the smaller code point or ends. */
  predicate SmallerAt(a: string, b: string, n: int) {
    0 <= n <= |a| && n < |b| && a[..n] == b[..n] && (n == |a| || a[n] as int < b[n] as int)
  }

  /** Alphabetical order by code points. */
  lemma {:induction false} LessIff(a: string, b: string)
    ensures Less(a, b) <==> exists n :: SmallerAt(a, b, n)
    decreases |a|
  {
    if a != "" && b != "" && a[0] == b[0] {
      LessIff(a[1..], b[1..]);
      forall n | n >= 0
        ensures SmallerAt(a[1..], b[1..], n) <==> SmallerAt(a, b, n + 1)
      {
        SmallerBehind(a, b, n);
      }
      assert !SmallerAt(a, b, 0);
      if n :| SmallerAt(a, b, n) {
        assert SmallerAt(a[1..], b[1..], n - 1);
      }
    } else {
      assert b != "" && (a == "" || a[0] < b[0]) ==> SmallerAt(a, b, 0);
      if n :| SmallerAt(a, b, n) {
        assert n > 0 ==> a[..n][0] == b[..n][0];
      }
    }
  }

  lemma SmallerBehind(a: string, b: string, n: int)
    requires n >= 0 && a != "" && b != "" && a[0] == b[0]
    ensures SmallerAt(a[1..], b[1..], n) <==> SmallerAt(a, b, n + 1)
  {
    if n < |a| && n < |b| {
      assert a[..n + 1] == [a[0]] + a[1..][..n] && b[..n + 1] == [b[0]] + b[1..][..n];
    }
  }

  /** Letter case aside, and only that of the 26 letters, the two are the same character. */
  predicate SameLetter(x: char, y: char) {
    || x == y
    || (97 <= x as int <= 122 && y as int == x as int - 32)
    || (97 <= y as int <= 122 && x as int == y as int - 32)
  }

  lemma SameIff(a: string, b: string, insensitive: bool)
    ensures Same(a, b, insensitive) <==>
      if insensitive then |a| == |b| && forall i :: 0 <= i < |a| ==> SameLetter(a[i], b[i]) else a == b
  {
    if insensitive {
      var x, y := Key(a, true), Key(b, true);
      assert forall i :: 0 <= i < |a| ==> x[i] == Upper(a[i]);
      assert forall i :: 0 <= i < |b| ==> y[i] == Upper(b[i]);
      if x == y {
        assert forall i :: 0 <= i < |a| ==> x[i] == y[i];
      }
    }
  }

  /** Without regard to case, letters stand where the capital ones do: before an underscore, for instance. */
  lemma LettersBeforeUnderscore(c: char)
    requires 'A' <= c <= 'Z' || 'a' <= c <= 'z'
    ensures Before([c], "_", true) && (Before([c], "_", false) <==> c <= 'Z')
  {
    assert Key([c], true)[0] == Upper(c) && Key("_", true)[0] == '_';
    assert [c][1..] == "" && "_"[1..] == "";
  }

  /** Insertion into a std::set, seen as the sequence it iterates over: an element that is already there, in whatever
      spelling, stays as it is. */
  function Insert(ordered: seq<string>, s: string, insensitive: bool): seq<string> {
    if ordered == [] || Before(s, ordered[0], insensitive) then [s] + ordered
    else if Before(ordered[0], s, insensitive) then [ordered[0]] + Insert(ordered[1..], s, insensitive)
    else ordered
  }

  function InsertAll(ordered: seq<string>, more: seq<string>, insensitive: bool): seq<string> {
    if more == [] then ordered
    else Insert(InsertAll(ordered, more[..|more| - 1], insensitive), more[|more| - 1], insensitive)
  }

  method MergePaths(lhs: seq<string>, rhs: seq<string>, insensitive: bool) returns (merged: seq<string>)
    ensures merged == InsertAll([], lhs + rhs, insensitive)
  {
    merged := [];
    for i := 0 to |lhs|
      invariant merged == InsertAll([], lhs[..i], insensitive)
    {
      InsertNext([], lhs, i, insensitive);
      merged := Insert(merged, lhs[i], insensitive);
    }
    assert lhs[..|lhs|] == lhs;
    ghost var left := merged;
    for i := 0 to |rhs|
      invariant merged == InsertAll(left, rhs[..i], insensitive)
    {
      InsertNext(left, rhs, i, insensitive);
      merged := Insert(merged, rhs[i], insensitive);
    }
    assert rhs[..|rhs|] == rhs;
    InsertInTurn([], lhs, rhs, insensitive);
  }

  lemma InsertNext(ordered: seq<string>, more: seq<string>, i: nat, insensitive: bool)
    requires i < |more|
    ensures InsertAll(ordered, more[..i + 1], insensitive)
         == Insert(InsertAll(ordered, more[..i], insensitive), more[i], insensitive)
  {
    assert more[..i + 1][..i] == more[..i];
  }

  /** Inserting one list and then another is inserting both. */
  lemma {:induction false} InsertInTurn(ordered: seq<string>, lhs: seq<string>, rhs: seq<string>, insensitive: bool)
    ensures InsertAll(InsertAll(ordered, lhs, insensitive), rhs, insensitive)
         == InsertAll(ordered, lhs + rhs, insensitive)
    decreases |rhs|
  {
    if rhs == [] {
      assert lhs + rhs == lhs;
    } else {
      assert (lhs + rhs)[..|lhs + rhs| - 1] == lhs + rhs[..|rhs| - 1];
      InsertInTurn(ordered, lhs, rhs[..|rhs| - 1], insensitive);
    }
  }

  ghost predicate Ascends(s: seq<string>, insensitive: bool) {
    forall i, j :: 0 <= i < j < |s| ==> Before(s[i], s[j], insensitive)
  }

  /** `m` is in the list, and nothing the same as it comes earlier. */
  ghost predicate IsFirst(list: seq<string>, m: string, insensitive: bool) {
    exists i :: 0 <= i < |list| && list[i] == m && !Has(list[..i], m, insensitive)
  }

  ghost predicate Has(list: seq<string>, m: string, insensitive: bool) {
    exists i :: 0 <= i < |list| && Same(list[i], m, insensitive)
  }

  lemma HasConcat(a: seq<string>, b: seq<string>, m: string, insensitive: bool)
    ensures Has(a + b, m, insensitive) <==> Has(a, m, insensitive) || Has(b, m, insensitive)
  {
    if Has(a, m, insensitive) {
      var i :| 0 <= i < |a| && Same(a[i], m, insensitive);
      assert (a + b)[i] == a[i];
    }
    if Has(b, m, insensitive) {
      var i :| 0 <= i < |b| && Same(b[i], m, insensitive);
      assert (a + b)[|a| + i] == b[i];
    }
  }

  lemma FirstConcat(a: seq<string>, b: seq<string>, m: string, insensitive: bool)
    ensures IsFirst(a + b, m, insensitive) <==>
      IsFirst(a, m, insensitive) || (!Has(a, m, insensitive) && IsFirst(b, m, insensitive))
  {
    if IsFirst(a, m, insensitive) {
      var i :| 0 <= i < |a| && a[i] == m && !Has(a[..i], m, insensitive);
      assert (a + b)[i] == m && (a + b)[..i] == a[..i];
    }
    if !Has(a, m, insensitive) && IsFirst(b, m, insensitive) {
      var i :| 0 <= i < |b| && b[i] == m && !Has(b[..i], m, insensitive);
      assert (a + b)[|a| + i] == m && (a + b)[..|a| + i] == a + b[..i];
      HasConcat(a, b[..i], m, insensitive);
    }
    if IsFirst(a + b, m, insensitive) {
      var i :| 0 <= i < |a + b| && (a + b)[i] == m && !Has((a + b)[..i], m, insensitive);
      if i < |a| {
        assert (a + b)[..i] == a[..i];
      } else {
        assert (a + b)[..i] == a + b[..i - |a|];
        HasConcat(a, b[..i - |a|], m, insensitive);
        assert b[i - |a|] == m;
      }
    }
  }

  /** The set a sequence of insertions builds: sorted, one spelling of each path, namely the first one inserted. */
  ghost predicate IsSetOf(ordered: seq<string>, list: seq<string>, insensitive: bool) {
    Ascends(ordered, insensitive) && forall m :: m in ordered <==> IsFirst(list, m, insensitive)
  }

  lemma {:induction false} InsertInto(ordered: seq<string>, s: string, insensitive: bool)
    requires Ascends(ordered, insensitive)
    ensures Ascends(Insert(ordered, s, insensitive), insensitive)
    ensures forall m :: m in Insert(ordered, s, insensitive) <==>
      m in ordered || (m == s && !Has(ordered, s, insensitive))
    decreases |ordered|
  {
    if ordered == [] {
    } else {
      var head, rest := ordered[0], ordered[1..];
      assert ordered == [head] + rest;
      HasConcat([head], rest, s, insensitive);
      LessIsOrder(Key(s, insensitive), Key(head, insensitive), Key(head, insensitive));
      LessIsOrder(Key(head, insensitive), Key(s, insensitive), Key(head, insensitive));
      if Before(s, head, insensitive) {
        AllAfter(ordered, s, insensitive);
      } else if Before(head, s, insensitive) {
        var inserted := Insert(rest, s, insensitive);
        InsertInto(rest, s, insensitive);
        assert [head][0] == head;
        forall i | 0 <= i < |inserted|
          ensures Before(head, inserted[i], insensitive)
        {
          assert inserted[i] in inserted;
        }
      } else {
        assert Same(ordered[0], s, insensitive);
      }
    }
  }

  lemma AllAfter(ordered: seq<string>, s: string, insensitive: bool)
    requires Ascends(ordered, insensitive) && ordered != [] && Before(s, ordered[0], insensitive)
    ensures forall i :: 0 <= i < |ordered| ==> Before(s, ordered[i], insensitive)
    ensures !Has(ordered, s, insensitive)
  {
    forall i | 0 <= i < |ordered|
      ensures Before(s, ordered[i], insensitive) && !Same(ordered[i], s, insensitive)
    {
      LessIsOrder(Key(s, insensitive), Key(ordered[0], insensitive), Key(ordered[i], insensitive));
      LessIsOrder(Key(s, insensitive), Key(ordered[i], insensitive), Key(ordered[i], insensitive));
    }
  }

  lemma {:induction false} HasIsFirst(list: seq<string>, m: string, insensitive: bool)
    ensures Has(list, m, insensitive) <==> exists x :: IsFirst(list, x, insensitive) && Same(x, m, insensitive)
    decreases |list|
  {
    if list != [] {
      var front, last := list[..|list| - 1], list[|list| - 1];
      assert list == front + [last];
      HasIsFirst(front, m, insensitive);
      HasConcat(front, [last], m, insensitive);
      forall x
        ensures IsFirst(list, x, insensitive) <==>
          IsFirst(front, x, insensitive) || (!Has(front, x, insensitive) && IsFirst([last], x, insensitive))
      {
        FirstConcat(front, [last], x, insensitive);
      }
      assert [last][..0] == [];
      assert IsFirst([last], last, insensitive) by {
        assert [last][0] == last && !Has([last][..0], last, insensitive);
      }
    }
  }

  lemma {:induction false} BuildsSet(list: seq<string>, insensitive: bool)
    ensures IsSetOf(InsertAll([], list, insensitive), list, insensitive)
    decreases |list|
  {
    if list != [] {
      var front, last := list[..|list| - 1], list[|list| - 1];
      var ordered := InsertAll([], front, insensitive);
      assert list == front + [last];
      BuildsSet(front, insensitive);
      InsertInto(ordered, last, insensitive);
      HasIsFirst(front, last, insensitive);
      forall m
        ensures IsFirst(list, m, insensitive) <==>
          IsFirst(front, m, insensitive) || (m == last && !Has(front, m, insensitive))
      {
        FirstConcat(front, [last], m, insensitive);
        FirstOfOne(last, m, insensitive);
      }
    }
  }

  lemma FirstOfOne(x: string, m: string, insensitive: bool)
    ensures IsFirst([x], m, insensitive) <==> m == x
  {
    assert [x][..0] == [] && [x][0] == x;
  }

  lemma {:induction false} SameMembersSameSet(a: seq<string>, b: seq<string>, insensitive: bool)
    requires Ascends(a, insensitive) && Ascends(b, insensitive) && forall m :: m in a <==> m in b
    ensures a == b
    decreases |a|
  {
    if a == [] {
      assert forall i :: 0 <= i < |b| ==> b[i] in b;
    } else {
      assert a[0] in a && a[0] in b;
      assert b[0] in b && b[0] in a;
      var i :| 0 <= i < |b| && b[i] == a[0];
      var j :| 0 <= j < |a| && a[j] == b[0];
      LessIsOrder(Key(a[0], insensitive), Key(b[0], insensitive), "");
      assert a[0] == b[0];
      forall m
        ensures m in a[1..] <==> m in b[1..]
      {
        RestMembers(a, m, insensitive);
        RestMembers(b, m, insensitive);
      }
      SameMembersSameSet(a[1..], b[1..], insensitive);
      assert a == [a[0]] + a[1..] && b == [b[0]] + b[1..];
    }
  }

  lemma RestMembers(a: seq<string>, m: string, insensitive: bool)
    requires a != [] && Ascends(a, insensitive)
    ensures m in a[1..] <==> m in a && m != a[0]
  {
    LessIsOrder(Key(a[0], insensitive), "", "");
    assert a == [a[0]] + a[1..];
  }

  /** Each spelling in an ascending list is the first of its kind. */
  lemma SetFirsts(ordered: seq<string>, m: string, insensitive: bool)
    requires Ascends(ordered, insensitive)
    ensures IsFirst(ordered, m, insensitive) <==> m in ordered
  {
    if m in ordered {
      var i :| 0 <= i < |ordered| && ordered[i] == m;
      forall j | 0 <= j < i
        ensures !Same(ordered[..i][j], m, insensitive)
      {
        LessIsOrder(Key(ordered[j], insensitive), Key(m, insensitive), "");
      }
    }
  }

  /** Merging into an already merged list is merging everything at once. */
  lemma MergeOfMerged(front: seq<string>, list: seq<string>, insensitive: bool)
    ensures InsertAll([], front + InsertAll([], list, insensitive), insensitive)
      == InsertAll([], front + list, insensitive)
  {
    var merged := InsertAll([], list, insensitive);
    BuildsSet(list, insensitive);
    BuildsSet(front + merged, insensitive);
    BuildsSet(front + list, insensitive);
    forall m
      ensures IsFirst(front + merged, m, insensitive) <==> IsFirst(front + list, m, insensitive)
    {
      FirstConcat(front, merged, m, insensitive);
      FirstConcat(front, list, m, insensitive);
      SetFirsts(merged, m, insensitive);
    }
    var twice, once := InsertAll([], front + merged, insensitive), InsertAll([], front + list, insensitive);
    SameMembersSameSet(twice, once, insensitive);
  }

  // ---- merge, mergePath and compile -----------------------------------------------------------------------------

  /** `other` has priority. The result inherits from nothing. */
  function Merged(inherited: Environment, other: Environment, insensitive: bool): Environment {
    Environment(InsertAll([], inherited.path + other.path, insensitive), inherited.variables + other.variables, [])
  }

  method Merge(inherited: Environment, other: Environment, insensitive: bool) returns (merged: Environment)
    ensures merged == Merged(inherited, other, insensitive)
  {
    var variables := MergeVariables(inherited.variables, other.variables);
    var path := MergePaths(inherited.path, other.path, insensitive);
    merged := Environment(path, variables, []);
  }

  method MergeVariables(inherited: map<string, string>, other: map<string, string>)
      returns (merged: map<string, string>)
    ensures merged == inherited + other
  {
    merged := inherited;
    var todo := other.Keys;
    while todo != {}
      invariant todo <= other.Keys && merged.Keys == inherited.Keys + (other.Keys - todo)
      invariant forall k :: k in merged ==> merged[k] == if k in other && k !in todo then other[k] else inherited[k]
      decreases |todo|
    {
      var key :| key in todo;
      merged := merged[key := other[key]];
      todo := todo - {key};
    }
  }

  function Join(path: seq<string>, pathSplit: char): string {
    if path == [] then ""
    else if |path| == 1 then path[0]
    else Join(path[..|path| - 1], pathSplit) + [pathSplit] + path[|path| - 1]
  }

  /** None is the pop_back on an empty string, which has no defined result. */
  method MergePath(path: seq<string>, pathSplit: char) returns (joined: Option<string>)
    ensures joined == if path == [] then None else Some(Join(path, pathSplit))
  {
    var pathStr := "";
    for i := 0 to |path|
      invariant i == 0 ==> pathStr == ""
      invariant i > 0 ==> pathStr == Join(path[..i], pathSplit) + [pathSplit]
    {
      pathStr := pathStr + path[i] + [pathSplit];
      assert path[..i + 1][..i] == path[..i];
      assert i > 0 ==> pathStr == (Join(path[..i], pathSplit) + [pathSplit] + path[i]) + [pathSplit];
      assert i == 0 ==> pathStr == path[0] + [pathSplit];
    }
    if pathStr == "" {
      return None;
    }
    assert path[..|path|] == path;
    return Some(pathStr[..|pathStr| - 1]);
  }

  /** PATH goes in first, and a variable of that name does not replace it. */
  function Compiled(env: Environment, pathSplit: char): Option<map<string, string>> {
    if env.path == [] then None else Some(env.variables["PATH" := Join(env.path, pathSplit)])
  }

  // ---- compileEnvironment ---------------------------------------------------------------------------------------

  datatype Platform = Linux | Windows

  /** `sensitive` is true except on Windows, and is passed for the parameter that asks for case-insensitive paths. */
  function Insensitive(p: Platform): bool {
    p == Linux
  }

  function PathSplit(p: Platform): char {
    if p == Linux then ':' else ';'
  }

  /** `MissingParent` is the exception naming the first parent not found, `NoPath` the join of an empty path list. */
  datatype Outcome = NotFound | MissingParent(name: string) | NoPath | Success(env: map<string, string>)

  function Names(inherits: seq<(string, string)>): (names: seq<string>)
    ensures |names| == |inherits| && forall i :: 0 <= i < |names| ==> names[i] == inherits[i].1
  {
    seq(|inherits|, i requires 0 <= i < |inherits| => inherits[i].1)
  }

  function FirstMissing(envs: map<string, Environment>, names: seq<string>): Option<string> {
    if names == [] then None else if names[0] !in envs then Some(names[0]) else FirstMissing(envs, names[1..])
  }

  /** The environment after the loop over its parents. */
  function Inherited(envs: map<string, Environment>, env: Environment, parents: seq<string>,
                     insensitive: bool): Environment
    requires forall i :: 0 <= i < |parents| ==> parents[i] in envs
  {
    if parents == [] then env
    else Merged(envs[parents[|parents| - 1]], Inherited(envs, env, parents[..|parents| - 1], insensitive), insensitive)
  }

  ghost function Compilation(envs: map<string, Environment>, name: string, platform: Platform): Outcome {
    if name !in envs then NotFound
    else
      var parents := Names(envs[name].inherits);
      if FirstMissing(envs, parents).Some? then MissingParent(FirstMissing(envs, parents).value)
      else
        MissingNone(envs, parents);
        match Compiled(Inherited(envs, envs[name], parents, Insensitive(platform)), PathSplit(platform))
        case None => NoPath
        case Some(env) => Success(env)
  }

  lemma {:induction false} MissingNone(envs: map<string, Environment>, names: seq<string>)
    ensures FirstMissing(envs, names) == None <==> forall i :: 0 <= i < |names| ==> names[i] in envs
    decreases |names|
  {
    if names != [] && names[0] in envs {
      MissingNone(envs, names[1..]);
      assert forall i :: 0 < i < |names| ==> names[i] == names[1..][i - 1];
    }
  }

  lemma {:induction false} MissingAt(envs: map<string, Environment>, names: seq<string>, i: nat)
    requires i < |names| && names[i] !in envs && forall j :: 0 <= j < i ==> names[j] in envs
    ensures FirstMissing(envs, names) == Some(names[i])
    decreases i
  {
    if i > 0 {
      MissingAt(envs, names[1..], i - 1);
    }
  }

  method CompileEnvironment(envs: map<string, Environment>, name: string, platform: Platform) returns (outcome: Outcome)
    ensures outcome == Compilation(envs, name, platform)
  {
    if name !in envs {
      return NotFound;
    }
    var env := envs[name];
    var envCpy := env;
    ghost var parents := Names(envCpy.inherits);
    MissingNone(envs, parents);
    for i := 0 to |envCpy.inherits|
      invariant forall j :: 0 <= j < i ==> parents[j] in envs
      invariant env == Inherited(envs, envCpy, parents[..i], Insensitive(platform))
    {
      var inherits := envCpy.inherits[i].1;
      if inherits !in envs {
        MissingAt(envs, parents, i);
        assert Compilation(envs, name, platform) == MissingParent(inherits);
        return MissingParent(inherits);
      }
      env := Merge(envs[inherits], env, Insensitive(platform));
      assert parents[..i + 1][..i] == parents[..i];
    }
    assert parents[..|parents|] == parents;
    CompilationOf(envs, name, platform);
    var path := MergePath(env.path, PathSplit(platform));
    if path == None {
      return NoPath;
    }
    return Success(env.variables["PATH" := path.value]);
  }

  /** What is compiled when nothing is missing. */
  lemma {:induction false} CompilationOf(envs: map<string, Environment>, name: string, platform: Platform)
    requires name in envs
    requires var parents := Names(envs[name].inherits); forall i :: 0 <= i < |parents| ==> parents[i] in envs
    ensures var env := Inherited(envs, envs[name], Names(envs[name].inherits), Insensitive(platform));
      Compilation(envs, name, platform) ==
        if env.path == [] then NoPath
        else Success(env.variables["PATH" := Join(env.path, PathSplit(platform))])
  {
    MissingNone(envs, Names(envs[name].inherits));
  }

  // ---- The closed form ------------------------------------------------------------------------------------------

  /** The first to define a variable: the environment itself, then its parents in order. */
  function Definition(envs: map<string, Environment>, env: Environment, parents: seq<string>, k: string): Option<string>
    requires forall i :: 0 <= i < |parents| ==> parents[i] in envs
    decreases |parents|
  {
    if k in env.variables then Some(env.variables[k])
    else if parents == [] then None
    else Definition(envs, envs[parents[0]], parents[1..], k)
  }

  /** All path lists, those of later parents first. */
  function PathLists(envs: map<string, Environment>, env: Environment, parents: seq<string>): seq<string>
    requires forall i :: 0 <= i < |parents| ==> parents[i] in envs
  {
    if parents == [] then env.path
    else envs[parents[|parents| - 1]].path + PathLists(envs, env, parents[..|parents| - 1])
  }

  lemma {:induction false} DefinitionLast(envs: map<string, Environment>, env: Environment, parents: seq<string>,
                                          k: string)
    requires parents != [] && forall i :: 0 <= i < |parents| ==> parents[i] in envs
    ensures var front, last := parents[..|parents| - 1], envs[parents[|parents| - 1]];
      Definition(envs, env, parents, k) ==
        if Definition(envs, env, front, k).Some? then Definition(envs, env, front, k)
        else if k in last.variables then Some(last.variables[k]) else None
    decreases |parents|
  {
    if k !in env.variables && |parents| > 1 {
      DefinitionLast(envs, envs[parents[0]], parents[1..], k);
      assert parents[1..][..|parents| - 2] == parents[..|parents| - 1][1..];
    }
  }

  lemma {:induction false} InheritedVariables(envs: map<string, Environment>, env: Environment, parents: seq<string>,
                                              insensitive: bool, k: string)
    requires forall i :: 0 <= i < |parents| ==> parents[i] in envs
    ensures var variables := Inherited(envs, env, parents, insensitive).variables;
      Definition(envs, env, parents, k) == if k in variables then Some(variables[k]) else None
    decreases |parents|
  {
    if parents != [] {
      InheritedVariables(envs, env, parents[..|parents| - 1], insensitive, k);
      DefinitionLast(envs, env, parents, k);
    }
  }

  lemma {:induction false} InheritedPath(envs: map<string, Environment>, env: Environment, parents: seq<string>,
                                         insensitive: bool)
    requires forall i :: 0 <= i < |parents| ==> parents[i] in envs
    ensures Inherited(envs, env, parents, insensitive).path ==
      if parents == [] then env.path else InsertAll([], PathLists(envs, env, parents), insensitive)
    decreases |parents|
  {
    if |parents| > 1 {
      var front := parents[..|parents| - 1];
      InheritedPath(envs, env, front, insensitive);
      MergeOfMerged(envs[parents[|parents| - 1]].path, PathLists(envs, env, front), insensitive);
    } else if |parents| == 1 {
      assert parents[..0] == [];
    }
  }

  /** What a compiled environment is. Every variable but PATH has the value of its first definer among the environment
      itself and then its parents in key order. With parents, PATH joins the sorted set of all path lists, in which a
      path stands as the latest parent spells it; without, it joins the environment's own list as it is. */
  lemma CompilationClosedForm(envs: map<string, Environment>, name: string, platform: Platform, k: string)
    requires name in envs
    requires var parents := Names(envs[name].inherits); forall i :: 0 <= i < |parents| ==> parents[i] in envs
    ensures var env, parents, outcome := envs[name], Names(envs[name].inherits), Compilation(envs, name, platform);
      var lists, c := PathLists(envs, env, parents), if platform == Linux then ':' else ';';
      var path := if parents == [] then lists else InsertAll([], lists, platform == Linux);
      && (outcome == NoPath <==> lists == [])
      && (parents != [] ==> IsSetOf(path, lists, platform == Linux))
      && (lists != [] ==>
            && outcome.Success? && outcome.env.Keys >= {"PATH"} && outcome.env["PATH"] == Join(path, c)
            && (k != "PATH" ==>
                  Definition(envs, env, parents, k) == if k in outcome.env then Some(outcome.env[k]) else None))
  {
    var env, parents := envs[name], Names(envs[name].inherits);
    var lists, insensitive := PathLists(envs, env, parents), Insensitive(platform);
    CompilationOf(envs, name, platform);
    InheritedVariables(envs, env, parents, insensitive, k);
    InheritedPath(envs, env, parents, insensitive);
    BuildsSet(lists, insensitive);
    if lists != [] {
      MergedFromList(lists, insensitive);
    }
  }

  /** When there is no outcome to speak of: the environment is not defined, or a parent is not, and then the first such
      is named. */
  lemma CompilationFailsIff(envs: map<string, Environment>, name: string, platform: Platform, missing: string)
    ensures Compilation(envs, name, platform) == NotFound <==> name !in envs
    ensures Compilation(envs, name, platform) == MissingParent(missing) <==>
      && name in envs
      && exists i :: 0 <= i < |envs[name].inherits| && envs[name].inherits[i].1 == missing && missing !in envs
                  && forall j :: 0 <= j < i ==> envs[name].inherits[j].1 in envs
  {
    if name in envs {
      var parents := Names(envs[name].inherits);
      MissingNone(envs, parents);
      FirstMissingIff(envs, parents, missing);
    }
  }

  lemma {:induction false} FirstMissingIff(envs: map<string, Environment>, names: seq<string>, missing: string)
    ensures FirstMissing(envs, names) == Some(missing) <==>
      exists i :: 0 <= i < |names| && names[i] == missing && missing !in envs
               && forall j :: 0 <= j < i ==> names[j] in envs
  {
    if i :| 0 <= i < |names| && names[i] == missing && missing !in envs && forall j :: 0 <= j < i ==> names[j] in envs {
      MissingAt(envs, names, i);
    }
    if FirstMissing(envs, names) == Some(missing) {
      var i := MissingIndex(envs, names);
    }
  }

  lemma {:induction false} MissingIndex(envs: map<string, Environment>, names: seq<string>) returns (i: nat)
    requires FirstMissing(envs, names).Some?
    ensures i < |names| && FirstMissing(envs, names) == Some(names[i]) && names[i] !in envs
    ensures forall j :: 0 <= j < i ==> names[j] in envs
    decreases |names|
  {
    if names[0] !in envs {
      i := 0;
    } else {
      i := MissingIndex(envs, names[1..]);
      i := i + 1;
      assert forall j :: 0 < j < i ==> names[j] == names[1..][j - 1];
    }
  }

  /** The separator between two entries, and which of the two comes first. */
  lemma TwoEntries(platform: Platform)
    ensures var envs := map["e" := Environment(["/usr/bin", "/bin"], map[], [])];
      Compilation(envs, "e", platform)
      == Success(map["PATH" := if platform == Linux then "/usr/bin:/bin" else "/usr/bin;/bin"])
  {
    var e := Environment(["/usr/bin", "/bin"], map[], []);
    assert Names(e.inherits) == [];
    assert e.path[..1] == ["/usr/bin"];
    assert Join(e.path, ':') == "/usr/bin:/bin" && Join(e.path, ';') == "/usr/bin;/bin";
  }

  // ---- Taking PATH apart again ----------------------------------------------------------------------------------

  /** Cutting at every separator. */
  function SplitAt(s: string, c: char): (parts: seq<string>)
    ensures parts != []
  {
    if s == "" then [""] else WithChar(SplitAt(s[..|s| - 1], c), s[|s| - 1], c)
  }

  function WithChar(parts: seq<string>, x: char, c: char): (more: seq<string>)
    requires parts != []
    ensures more != []
  {
    if x == c then parts + [""] else parts[..|parts| - 1] + [parts[|parts| - 1] + [x]]
  }

  lemma WithCharConcat(a: seq<string>, b: seq<string>, x: char, c: char)
    requires b != []
    ensures WithChar(a + b, x, c) == a + WithChar(b, x, c)
  {
    assert (a + b)[..|a + b| - 1] == a + b[..|b| - 1];
  }

  lemma {:induction false} SplitBehindSeparator(front: string, entry: string, c: char)
    ensures SplitAt(front + [c] + entry, c) == SplitAt(front, c) + SplitAt(entry, c)
    decreases |entry|
  {
    if entry == "" {
      SplitSnoc(front, c, c);
      assert front + [c] + entry == front + [c];
    } else {
      var init, last := entry[..|entry| - 1], entry[|entry| - 1];
      SplitBehindSeparator(front, init, c);
      SplitSnoc(init, last, c);
      SplitSnoc(front + [c] + init, last, c);
      WithCharConcat(SplitAt(front, c), SplitAt(init, c), last, c);
      assert entry == init + [last] && front + [c] + entry == (front + [c] + init) + [last];
    }
  }

  lemma SplitSnoc(s: string, x: char, c: char)
    ensures SplitAt(s + [x], c) == WithChar(SplitAt(s, c), x, c)
  {
    assert (s + [x])[..|s|] == s;
  }

  lemma {:induction false} SplitWhole(entry: string, c: char)
    ensures c !in entry <==> SplitAt(entry, c) == [entry]
    ensures c in entry ==> |SplitAt(entry, c)| > 1
    decreases |entry|
  {
    if entry != "" {
      var init, last := entry[..|entry| - 1], entry[|entry| - 1];
      assert entry == init + [last];
      SplitWhole(init, c);
    }
  }

  /** Splitting PATH at the separator recovers the list exactly when no entry contains the separator. */
  lemma {:induction false} PathSplitsIff(path: seq<string>, c: char)
    requires path != []
    ensures SplitAt(Join(path, c), c) == path <==> forall i :: 0 <= i < |path| ==> c !in path[i]
    ensures |SplitAt(Join(path, c), c)| >= |path|
    ensures |SplitAt(Join(path, c), c)| == |path| ==> SplitAt(Join(path, c), c) == path
    decreases |path|
  {
    var front, last := path[..|path| - 1], path[|path| - 1];
    assert path == front + [last];
    SplitWhole(last, c);
    if front != [] {
      PathSplitsIff(front, c);
      SplitBehindSeparator(Join(front, c), last, c);
    }
  }

  // ---- Letter case ----------------------------------------------------------------------------------------------

  /** No two different entries are taken for the same. */
  ghost predicate ToldApart(list: seq<string>, insensitive: bool) {
    forall i, j :: 0 <= i < j < |list| && Same(list[i], list[j], insensitive) ==> list[i] == list[j]
  }

  /** Merging keeps every entry exactly if no two different entries are taken for the same. */
  lemma AllKeptIff(list: seq<string>, insensitive: bool)
    ensures (forall m :: m in list ==> m in InsertAll([], list, insensitive)) <==> ToldApart(list, insensitive)
  {
    BuildsSet(list, insensitive);
    if ToldApart(list, insensitive) {
      forall m | m in list
        ensures IsFirst(list, m, insensitive)
      {
        SpelledOnceIsFirst(list, m, insensitive);
      }
    } else {
      var i, j :| 0 <= i < j < |list| && Same(list[i], list[j], insensitive) && list[i] != list[j];
      OnlyOneFirst(list, list[i], list[j], insensitive);
      assert list[i] in list && list[j] in list;
    }
  }

  lemma SpelledOnceIsFirst(list: seq<string>, m: string, insensitive: bool)
    requires ToldApart(list, insensitive) && m in list
    ensures IsFirst(list, m, insensitive)
  {
    var i :| 0 <= i < |list| && list[i] == m;
    assert Has(list, m, insensitive);
    HasIsFirst(list, m, insensitive);
    var x :| IsFirst(list, x, insensitive) && Same(x, m, insensitive);
    var k :| 0 <= k < |list| && list[k] == x;
    assert k < i ==> list[k] == list[i];
    assert i < k ==> list[i] == list[k];
  }

  /** Of two entries taken for the same, only one is the first of its kind. */
  lemma OnlyOneFirst(list: seq<string>, a: string, b: string, insensitive: bool)
    requires Same(a, b, insensitive) && a != b
    ensures !(IsFirst(list, a, insensitive) && IsFirst(list, b, insensitive))
  {
    forall i, n | 0 <= i < n <= |list|
      ensures Same(list[i], a, insensitive) ==> Has(list[..n], a, insensitive) && Has(list[..n], b, insensitive)
    {
      assert list[..n][i] == list[i];
    }
  }

  /** Every path of the environment and its parents stands in the compiled PATH exactly if there are no parents or no
      two different paths are taken for the same: always on Windows, and on Linux unless two differ only by case. */
  lemma CompiledPathKeepsIff(envs: map<string, Environment>, name: string, platform: Platform)
    requires name in envs
    requires var parents := Names(envs[name].inherits); forall i :: 0 <= i < |parents| ==> parents[i] in envs
    ensures var parents, outcome := Names(envs[name].inherits), Compilation(envs, name, platform);
      var lists, c := PathLists(envs, envs[name], parents), if platform == Linux then ':' else ';';
      var path := if parents == [] then lists else InsertAll([], lists, platform == Linux);
      lists != [] ==>
        && outcome.Success? && "PATH" in outcome.env && outcome.env["PATH"] == Join(path, c)
        && ((forall m :: m in lists ==> c !in m) ==> SplitAt(outcome.env["PATH"], c) == path)
        && ((forall m :: m in lists ==> m in path) <==> parents == [] || ToldApart(lists, platform == Linux))
        && (platform == Windows ==> forall m :: m in lists ==> m in path)
  {
    var env, parents := envs[name], Names(envs[name].inherits);
    var lists := PathLists(envs, env, parents);
    if lists != [] {
      MissingNone(envs, parents);
      InheritedPath(envs, env, parents, Insensitive(platform));
      if parents != [] {
        MergedFromList(lists, Insensitive(platform));
      }
      EntriesKeptIff(lists, parents != [], PathSplit(platform), Insensitive(platform));
    }
  }

  lemma EntriesKeptIff(lists: seq<string>, merging: bool, c: char, insensitive: bool)
    requires lists != []
    ensures var path := if merging then InsertAll([], lists, insensitive) else lists;
      && ((forall m :: m in lists ==> c !in m) ==> SplitAt(Join(path, c), c) == path)
      && ((forall m :: m in lists ==> m in path) <==> !merging || ToldApart(lists, insensitive))
      && (!insensitive ==> forall m :: m in lists ==> m in path)
  {
    var path := if merging then InsertAll([], lists, insensitive) else lists;
    MergedFromList(lists, insensitive);
    AllKeptIff(lists, insensitive);
    PathSplitsIff(path, c);
  }

  lemma MergedFromList(list: seq<string>, insensitive: bool)
    requires list != []
    ensures var merged := InsertAll([], list, insensitive);
      merged != [] && forall m :: m in merged ==> m in list
  {
    BuildsSet(list, insensitive);
    HasIsFirst(list, list[0], insensitive);
    assert Has(list, list[0], insensitive);
  }

  /** The header says that paths are told apart by case everywhere but on Windows. The flag that compileEnvironment
      passes has the opposite meaning, so it is on Linux that a path differing only by case gets lost. */
  lemma LinuxDropsCaseVariants(platform: Platform)
    ensures var child := Environment(["/A"], map[], [("0", "parent")]);
      var envs := map["child" := child, "parent" := Environment(["/a"], map[], [])];
      Compilation(envs, "child", platform) == Success(map["PATH" := if platform == Linux then "/a" else "/A;/a"])
  {
    var child := Environment(["/A"], map[], [("0", "parent")]);
    var envs := map["child" := child, "parent" := Environment(["/a"], map[], [])];
    var insensitive := Insensitive(platform);
    assert Names(child.inherits) == ["parent"];
    assert ["parent"][..0] == [] && ["parent"][1..] == [];
    var merged := Merged(envs["parent"], child, insensitive);
    assert Inherited(envs, child, ["parent"], insensitive) == merged;
    CaseVariants(insensitive);
    assert Join(["/a"], ':') == "/a" && ["/A", "/a"][..1] == ["/A"] && Join(["/A", "/a"], ';') == "/A;/a";
    assert merged.variables == map[];
  }

  lemma CaseVariants(insensitive: bool)
    ensures InsertAll([], ["/a"] + ["/A"], insensitive) == if insensitive then ["/a"] else ["/A", "/a"]
  {
    CaseKeys(insensitive);
    assert ["/a"] + ["/A"] == ["/a", "/A"] && ["/a", "/A"][..1] == ["/a"] && ["/a"][..0] == [];
    assert InsertAll([], ["/a"], insensitive) == ["/a"];
    assert InsertAll([], ["/a", "/A"], insensitive) == Insert(["/a"], "/A", insensitive);
  }

  lemma CaseKeys(insensitive: bool)
    ensures Same("/a", "/A", insensitive) <==> insensitive
    ensures Before("/A", "/a", insensitive) <==> !insensitive
    ensures !Before("/a", "/A", insensitive)
  {
    if insensitive {
      assert Key("/a", true) == "/A" && Key("/A", true) == "/A";
      LessIsOrder("/A", "/A", "/A");
    } else {
      assert "/A"[1..] == "A" && "/a"[1..] == "a";
      assert Less("A", "a") && !Less("a", "A");
    }
  }
}
