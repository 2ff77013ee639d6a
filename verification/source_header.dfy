/** Switching between a source file and its header (worker/routers/workspace.cpp): the extension to look for, and where
    the partner would be, beside the file or in the sibling directory that projects keep their headers or sources in.
 */
module SourceHeaders {
  import opened Wrappers

  /** A path by its names; an absolute one has "/" in front of them. */
  datatype Path = Path(absolute: bool, names: seq<string>)

  datatype FilePath = FilePath(dir: Path, name: string)

  /** std::filesystem::exists. */
  type FileSystem = Path -> bool

  // ---- File names -----------------------------------------------------------------------------------------------

  function LastDot(name: string): int {
    if name == "" then -1 else if name[|name| - 1] == '.' then |name| - 1 else LastDot(name[..|name| - 1])
  }

  /** path::stem: up to the last dot, unless that is the first character. */
  function Stem(name: string): string {
    if name == "." || name == ".." || LastDot(name) <= 0 || LastDot(name) > |name| then name else name[..LastDot(name)]
  }

  function Extension(name: string): string {
    if name == "." || name == ".." || LastDot(name) <= 0 || LastDot(name) > |name| then "" else name[LastDot(name)..]
  }

  function Lower(c: char): char {
    if 'A' <= c <= 'Z' then (c as int - 'A' as int + 'a' as int) as char else c
  }

  function ToLower(s: string): string {
    seq(|s|, i requires 0 <= i < |s| => Lower(s[i]))
  }

  lemma {:induction false} LastDotIs(stem: string, ext: string)
    requires ext != "" && ext[0] == '.' && forall i :: 1 <= i < |ext| ==> ext[i] != '.'
    ensures LastDot(stem + ext) == |stem|
    decreases |ext|
  {
    var name := stem + ext;
    if |ext| == 1 {
    } else {
      assert name[..|name| - 1] == stem + ext[..|ext| - 1];
      LastDotIs(stem, ext[..|ext| - 1]);
    }
  }

  lemma NameTakesApart(stem: string, ext: string)
    requires stem != "" && |ext| > 1 && ext[0] == '.' && forall i :: 1 <= i < |ext| ==> ext[i] != '.'
    ensures Stem(stem + ext) == stem && Extension(stem + ext) == ext
  {
    LastDotIs(stem, ext);
    assert (stem + ext)[..|stem|] == stem && (stem + ext)[|stem|..] == ext;
    assert stem + ext != "." && stem + ext != ".." by {
      assert (stem + ext)[|stem| + 1] == ext[1];
    }
  }

  lemma {:induction false} LastDotInRange(name: string)
    ensures -1 <= LastDot(name) < |name|
    ensures LastDot(name) >= 0 ==> name[LastDot(name)] == '.'
    ensures forall i :: 0 <= i < |name| && i > LastDot(name) ==> name[i] != '.'
    decreases |name|
  {
    if name != "" && name[|name| - 1] != '.' {
      LastDotInRange(name[..|name| - 1]);
    }
  }

  /** A name with an extension is its stem followed by the extension, which has no second dot. */
  lemma NameIsStemAndExtension(name: string)
    ensures name == Stem(name) + Extension(name)
    ensures Extension(name) != "" ==>
      && Stem(name) != "" && Extension(name)[0] == '.'
      && forall i :: 1 <= i < |Extension(name)| ==> Extension(name)[i] != '.'
  {
    LastDotInRange(name);
  }

  /** There is no extension exactly if there is no dot behind the first character, or the name is "..". */
  lemma NoExtensionIff(name: string)
    ensures Extension(name) == "" <==> name == ".." || forall i :: 1 <= i < |name| ==> name[i] != '.'
  {
    LastDotInRange(name);
  }

  // ---- The extension to look for --------------------------------------------------------------------------------

  const SOURCES := [".cpp", ".c", ".cxx", ".cc", ".c++", ".cp", ".ii", ".i", ".m", ".mi", ".mm", ".mii"]
  const HEADERS := [".hh", ".h", ".hp", ".hpp", ".hxx", ".h++", ".tcc", ".txx"]

  /** The extensions a request may ask for. */
  datatype Wish = Wish(sourceExtension: Option<string>, headerExtension: Option<string>)

  /** What the request's two fields end up as: the code stores a wished header extension where the wished source
      extension belongs. */
  function SourceExtension(w: Wish): string {
    if w.headerExtension.Some? then w.headerExtension.value
    else if w.sourceExtension.Some? then w.sourceExtension.value else "auto"
  }

  function HeaderExtension(w: Wish): string {
    "auto"
  }

  datatype Target = Target(isSource: bool, extension: string)

  /** None when the file is not recognized. */
  function TargetOf(extension: string, w: Wish): Option<Target> {
    var ext := ToLower(extension);
    if ext in SOURCES then
      Some(Target(true,
        if HeaderExtension(w) != "auto" then HeaderExtension(w)
        else if |ext| > 1 && ext[1] == 'c' then ".h" + ext[2..] else ".h"))
    else if ext in HEADERS then
      Some(Target(false,
        if SourceExtension(w) != "auto" then SourceExtension(w)
        else if |ext| > 1 && ext[1] == 'h' then ".c" + ext[2..] else ".cpp"))
    else None
  }

  const NO_WISH := Wish(None, None)

  /** The source extensions that come back from their header extension. ".cc" is not among them: its header extension
      comes out as ".hc", which is not recognized. */
  const PAIRED_SOURCES := [".c", ".cp", ".cpp", ".cxx", ".c++"]
  const PAIRED_HEADERS := [".h", ".hp", ".hpp", ".hxx", ".h++"]

  lemma LowerCase(ext: string)
    requires ext in SOURCES || ext in HEADERS
    ensures ToLower(ext) == ext && |ext| > 1 && ext[0] == '.' && forall i :: 1 <= i < |ext| ==> ext[i] != '.'
  {
  }

  /** The extension sought for a source file, by its own. */
  lemma HeaderOf(ext: string)
    requires ext in [".cpp", ".c", ".cxx", ".cc", ".c++", ".cp", ".ii", ".i", ".m", ".mi", ".mm", ".mii"]
    ensures TargetOf(ext, NO_WISH) == Some(Target(true,
      if ext == ".c" then ".h" else if ext == ".cp" then ".hp" else if ext == ".cpp" then ".hpp"
      else if ext == ".cxx" then ".hxx" else if ext == ".c++" then ".h++" else if ext == ".cc" then ".hc" else ".h"))
  {
    LowerCase(ext);
    assert ".h" + ".cpp"[2..] == ".hpp" && ".h" + ".c"[2..] == ".h" && ".h" + ".cxx"[2..] == ".hxx";
    assert ".h" + ".cc"[2..] == ".hc" && ".h" + ".c++"[2..] == ".h++" && ".h" + ".cp"[2..] == ".hp";
  }

  /** The extension sought for a header, by its own. */
  lemma SourceOf(ext: string)
    requires ext in [".hh", ".h", ".hp", ".hpp", ".hxx", ".h++", ".tcc", ".txx"]
    ensures TargetOf(ext, NO_WISH) == Some(Target(false,
      if ext == ".h" then ".c" else if ext == ".hp" then ".cp" else if ext == ".hpp" then ".cpp"
      else if ext == ".hxx" then ".cxx" else if ext == ".h++" then ".c++" else if ext == ".hh" then ".ch" else ".cpp"))
  {
    LowerCase(ext);
    assert ".c" + ".hpp"[2..] == ".cpp" && ".c" + ".h"[2..] == ".c" && ".c" + ".hxx"[2..] == ".cxx";
    assert ".c" + ".hh"[2..] == ".ch" && ".c" + ".h++"[2..] == ".c++" && ".c" + ".hp"[2..] == ".cp";
  }

  /** Nothing but these twenty extensions is recognized, and the first twelve are the source files. */
  lemma RecognizedIff(ext: string, w: Wish)
    ensures var sources := [".cpp", ".c", ".cxx", ".cc", ".c++", ".cp", ".ii", ".i", ".m", ".mi", ".mm", ".mii"];
      var headers := [".hh", ".h", ".hp", ".hpp", ".hxx", ".h++", ".tcc", ".txx"];
      && (TargetOf(ext, w) == None <==> ToLower(ext) !in sources && ToLower(ext) !in headers)
      && (TargetOf(ext, w).Some? ==> (TargetOf(ext, w).value.isSource <==> ToLower(ext) in sources))
  {
  }

  /** The same letter, in either case. */
  predicate SameLetter(x: char, y: char) {
    || x == y
    || (65 <= x as int <= 90 && y as int == x as int + 32)
    || (65 <= y as int <= 90 && x as int == y as int + 32)
  }

  /** Two extensions that differ only in case are treated alike. */
  lemma CaseIsIgnored(a: string, b: string, w: Wish)
    requires |a| == |b| && forall i :: 0 <= i < |a| ==> SameLetter(a[i], b[i])
    ensures ToLower(a) == ToLower(b) && TargetOf(a, w) == TargetOf(b, w)
  {
  }

  lemma NotRecognized()
    ensures TargetOf(".hc", NO_WISH) == None && TargetOf(".ch", NO_WISH) == None
  {
    assert ToLower(".hc") == ".hc" && ToLower(".ch") == ".ch";
  }

  /** A source extension comes back from the header extension sought for it exactly if it is one of five, in lower
      case. */
  lemma SourceExtensionReturnsIff(extension: string)
    requires ToLower(extension) in SOURCES
    ensures TargetOf(TargetOf(extension, NO_WISH).value.extension, NO_WISH) == Some(Target(false, extension))
       <==> extension in PAIRED_SOURCES
  {
    var ext := ToLower(extension);
    LowerCase(ext);
    HeaderOf(ext);
    var header := TargetOf(ext, NO_WISH).value.extension;
    assert TargetOf(extension, NO_WISH) == TargetOf(ext, NO_WISH);
    NotRecognized();
    if header in HEADERS {
      SourceOf(header);
    }
    if extension in PAIRED_SOURCES {
      LowerCase(extension);
    }
  }

  /** And the same from the side of the headers: ".hh", ".tcc" and ".txx" do not come back. */
  lemma HeaderExtensionReturnsIff(extension: string)
    requires ToLower(extension) in HEADERS
    ensures TargetOf(TargetOf(extension, NO_WISH).value.extension, NO_WISH) == Some(Target(true, extension))
       <==> extension in PAIRED_HEADERS
  {
    var ext := ToLower(extension);
    HeaderBack(ext);
    assert TargetOf(extension, NO_WISH) == TargetOf(ext, NO_WISH) by {
      LowerCase(ext);
    }
    if extension in PAIRED_HEADERS {
      LowerCase(extension);
    }
  }

  lemma HeaderBack(ext: string)
    requires ext in HEADERS
    ensures var t := TargetOf(ext, NO_WISH);
      t.Some? && TargetOf(t.value.extension, NO_WISH) ==
        if ext in PAIRED_HEADERS then Some(Target(true, ext))
        else if ext == ".hh" then None else Some(Target(true, ".hpp"))
  {
    SourceOf(ext);
    if ext == ".hh" {
      NotRecognized();
    } else {
      HeaderOf(if ext == ".h" then ".c" else if ext == ".hp" then ".cp" else if ext == ".hxx" then ".cxx"
               else if ext == ".h++" then ".c++" else ".cpp");
    }
  }

  /** A wished header extension never reaches the search for a header; it turns up as the extension of the source, in
      the place of a wished source extension, if there was one. */
  lemma WishedHeaderIsMisplaced(extension: string, source: Option<string>, header: string)
    ensures ToLower(extension) in SOURCES ==>
      TargetOf(extension, Wish(source, Some(header))) == TargetOf(extension, NO_WISH)
    ensures ToLower(extension) in HEADERS ==>
      TargetOf(extension, Wish(source, Some(header)))
      == if header == "auto" then TargetOf(extension, NO_WISH) else Some(Target(false, header))
  {
  }

  /** A wish other than "auto" is honoured for the header of a source file exactly if it is for the extension sought
      anyway, and for the source of a header exactly if no header extension is wished or what that makes of the search
      happens to be the same. */
  lemma WishIsHonouredIff(extension: string, w: Wish, wish: string)
    requires wish != "auto"
    ensures ToLower(extension) in SOURCES && w.headerExtension == Some(wish) ==>
      (TargetOf(extension, w) == Some(Target(true, wish)) <==>
         TargetOf(extension, NO_WISH) == Some(Target(true, wish)))
    ensures ToLower(extension) in HEADERS && w.sourceExtension == Some(wish) ==>
      (TargetOf(extension, w) == Some(Target(false, wish)) <==>
         || w.headerExtension == None || w.headerExtension == Some(wish)
         || (w.headerExtension == Some("auto") && TargetOf(extension, NO_WISH) == Some(Target(false, wish))))
  {
    if w.headerExtension.Some? {
      WishedHeaderIsMisplaced(extension, w.sourceExtension, w.headerExtension.value);
    }
  }

  // ---- The directory to look in ---------------------------------------------------------------------------------

  predicate IsSpecial(name: string, isSource: bool) {
    if isSource then name == "source" || name == "sources" || name == "src" else name == "include" || name == "headers"
  }

  /** How many names are left when the search from the deepest directory upwards stops; 0 if it finds nothing. */
  function SpecialDepth(names: seq<string>, isSource: bool): (depth: nat)
    ensures depth <= |names|
  {
    if names == [] then 0
    else if IsSpecial(names[|names| - 1], isSource) then |names|
    else SpecialDepth(names[..|names| - 1], isSource)
  }

  function WithoutDots(names: seq<string>): seq<string> {
    if names == [] then []
    else WithoutDots(names[..|names| - 1]) + if names[|names| - 1] == "." then [] else [names[|names| - 1]]
  }

  /** std::filesystem::proximate of a directory to one that contains it: never empty, and without "." otherwise. */
  function Proximate(rest: seq<string>): seq<string> {
    if WithoutDots(rest) == [] then ["."] else WithoutDots(rest)
  }

  /** The names of the sibling directories tried, in order; the first is also the fallback. */
  function Siblings(isSource: bool): seq<string> {
    if isSource then ["include", "headers"] else ["source", "src", "sources"]
  }

  function FirstExisting(parent: Path, siblings: seq<string>, onDisk: FileSystem): Option<string> {
    if siblings == [] then None
    else if onDisk(parent.(names := parent.names + [siblings[0]])) then Some(siblings[0])
    else FirstExisting(parent, siblings[1..], onDisk)
  }

  function Sibling(parent: Path, isSource: bool, onDisk: FileSystem): string {
    var found := FirstExisting(parent, Siblings(isSource), onDisk);
    if found.Some? then found.value else Siblings(isSource)[0]
  }

  /** `special` is None where the code returns an empty path. */
  datatype Partners = Partners(special: Option<FilePath>, samePlace: FilePath, specialExists: bool, anyFound: bool)

  function Toggled(original: FilePath, isSource: bool, extension: string, onDisk: FileSystem): Partners {
    var names, name := original.dir.names, Stem(original.name) + extension;
    var depth := SpecialDepth(names, isSource);
    var samePlace := FilePath(original.dir, name);
    if depth == 0 then Partners(None, samePlace, false, false)
    else
      var parent := original.dir.(names := names[..depth - 1]);
      var dir := parent.(names := parent.names + [Sibling(parent, isSource, onDisk)] + Proximate(names[depth..]));
      Partners(Some(FilePath(dir, name)), samePlace, FirstExisting(parent, Siblings(isSource), onDisk).Some?, true)
  }

  /** The loop over the reversed names. `reduced` is the directory it stops at; `anyFound` tells whether it was found
      or the names ran out. */
  method Reduce(names: seq<string>, isSource: bool) returns (reduced: seq<string>, anyFound: bool)
    ensures anyFound <==> SpecialDepth(names, isSource) > 0
    ensures anyFound ==> reduced == names[..SpecialDepth(names, isSource)]
  {
    var parts: seq<string> := [];
    for i := 0 to |names|
      invariant |parts| == i && forall k :: 0 <= k < i ==> parts[k] == names[i - 1 - k]
    {
      parts := [names[i]] + parts;
    }
    reduced, anyFound := names, false;
    for i := 0 to |parts|
      invariant reduced == names[..|parts| - i]
      invariant SpecialDepth(names, isSource) == SpecialDepth(reduced, isSource)
    {
      assert parts[i] == reduced[|reduced| - 1];
      if isSource && (parts[i] == "source" || parts[i] == "sources" || parts[i] == "src") {
        return reduced, true;
      } else if !isSource && (parts[i] == "include" || parts[i] == "headers") {
        return reduced, true;
      } else {
        assert reduced[..|reduced| - 1] == names[..|parts| - (i + 1)];
        reduced := reduced[..|reduced| - 1];
      }
    }
  }

  method ToggleSourceHeader(original: FilePath, isSource: bool, targetExtension: string, onDisk: FileSystem)
      returns (partners: Partners)
    ensures partners == Toggled(original, isSource, targetExtension, onDisk)
  {
    var reduced, anyFound := Reduce(original.dir.names, isSource);
    var name := Stem(original.name) + targetExtension;
    var samePlace := FilePath(original.dir, name);
    if !anyFound {
      return Partners(None, samePlace, false, false);
    }
    var relative := Proximate(original.dir.names[|reduced|..]);
    var parent := original.dir.(names := reduced[..|reduced| - 1]);
    assert parent.names == original.dir.names[..|reduced| - 1];
    var specialDir := FirstExisting(parent, Siblings(isSource), onDisk);
    var special := if specialDir.Some? then specialDir.value else Siblings(isSource)[0];
    var partner := FilePath(parent.(names := parent.names + [special] + relative), name);
    return Partners(Some(partner), samePlace, specialDir.Some?, true);
  }

  // ---- What the toggle finds, in plain words --------------------------------------------------------------------

  /** The first of the candidates that exists in a directory, and else the first of all. */
  predicate IsFirstExisting(chosen: string, candidates: seq<string>, parent: Path, onDisk: FileSystem) {
    || (exists i :: 0 <= i < |candidates| && candidates[i] == chosen && Exists(parent, chosen, onDisk)
                 && forall j :: 0 <= j < i ==> !Exists(parent, candidates[j], onDisk))
    || (candidates != [] && chosen == candidates[0] && forall c :: c in candidates ==> !Exists(parent, c, onDisk))
  }

  predicate Exists(parent: Path, name: string, onDisk: FileSystem) {
    onDisk(Path(parent.absolute, parent.names + [name]))
  }

  /** The directories that are looked for on the way up, and those that the partner is sought in. */
  function SpecialNames(isSource: bool): seq<string> {
    if isSource then ["source", "sources", "src"] else ["include", "headers"]
  }

  function PartnerNames(isSource: bool): seq<string> {
    if isSource then ["include", "headers"] else ["source", "src", "sources"]
  }

  /** With a special directory on the way up, of which the deepest counts, the partner stands in the directory beside it
      that exists first, under the same names without ".", and with its own extension. */
  lemma ToggledIs(original: FilePath, isSource: bool, extension: string, onDisk: FileSystem, above: seq<string>,
                  special: string, rest: seq<string>)
    requires original.dir.names == above + [special] + rest
    requires special in SpecialNames(isSource) && forall r :: r in rest ==> r !in SpecialNames(isSource)
    ensures var t, parent := Toggled(original, isSource, extension, onDisk), Path(original.dir.absolute, above);
      && t.anyFound && t.samePlace == FilePath(original.dir, Stem(original.name) + extension)
      && (t.specialExists <==> exists c :: c in PartnerNames(isSource) && Exists(parent, c, onDisk))
      && t.special.Some? && t.special.value.name == Stem(original.name) + extension
      && t.special.value.dir.absolute == original.dir.absolute
      && var names := t.special.value.dir.names;
         && |names| > |above| && names[..|above|] == above
         && IsFirstExisting(names[|above|], PartnerNames(isSource), parent, onDisk)
         && names[|above| + 1..] == if WithoutDots(rest) == [] then ["."] else WithoutDots(rest)
  {
    var parent := Path(original.dir.absolute, above);
    SpecialIsDeepest(original.dir.names, above, special, rest, isSource);
    FirstExistingIs(parent, PartnerNames(isSource), onDisk);
    var chosen, tail := Sibling(parent, isSource, onDisk), Proximate(rest);
    assert (above + [chosen] + tail)[..|above|] == above && (above + [chosen] + tail)[|above| + 1..] == tail;
  }

  lemma SpecialIsDeepest(names: seq<string>, above: seq<string>, special: string, rest: seq<string>, isSource: bool)
    requires names == above + [special] + rest
    requires special in SpecialNames(isSource) && forall r :: r in rest ==> r !in SpecialNames(isSource)
    ensures var depth := SpecialDepth(names, isSource);
      depth == |above| + 1 && names[..depth - 1] == above && names[depth..] == rest
  {
    NoSpecialBelow(above + [special], rest, isSource);
    SpecialDepthConcat(above, [special], isSource);
  }

  lemma {:induction false} NoSpecialBelow(names: seq<string>, rest: seq<string>, isSource: bool)
    requires forall r :: r in rest ==> r !in SpecialNames(isSource)
    ensures SpecialDepth(names + rest, isSource) == SpecialDepth(names, isSource)
    decreases |rest|
  {
    if rest == [] {
      assert names + rest == names;
    } else {
      var front, last := rest[..|rest| - 1], rest[|rest| - 1];
      assert (names + rest)[..|names + rest| - 1] == names + front && last in rest;
      NoSpecialBelow(names, front, isSource);
    }
  }

  lemma {:induction false} FirstExistingIs(parent: Path, candidates: seq<string>, onDisk: FileSystem)
    requires candidates != []
    ensures var found := FirstExisting(parent, candidates, onDisk);
      && IsFirstExisting(if found.Some? then found.value else candidates[0], candidates, parent, onDisk)
      && (found.Some? <==> exists c :: c in candidates && Exists(parent, c, onDisk))
    decreases |candidates|
  {
    var found, rest := FirstExisting(parent, candidates, onDisk), candidates[1..];
    assert candidates == [candidates[0]] + rest;
    if Exists(parent, candidates[0], onDisk) {
      assert candidates[0] in candidates;
    } else if rest != [] {
      FirstExistingIs(parent, rest, onDisk);
      if found.Some? && found.value in rest && Exists(parent, found.value, onDisk) {
        var i :| 0 <= i < |rest| && rest[i] == found.value && Exists(parent, found.value, onDisk)
          && forall j :: 0 <= j < i ==> !Exists(parent, rest[j], onDisk);
        assert candidates[i + 1] == found.value;
        assert forall j :: 0 < j < i + 1 ==> candidates[j] == rest[j - 1];
      }
    }
  }

  /** Without one there is only the partner beside the file. */
  lemma NothingToggled(original: FilePath, isSource: bool, extension: string, onDisk: FileSystem)
    requires forall n :: n in original.dir.names ==> n !in SpecialNames(isSource)
    ensures Toggled(original, isSource, extension, onDisk)
         == Partners(None, FilePath(original.dir, Stem(original.name) + extension), false, false)
  {
    NoSpecialBelow([], original.dir.names, isSource);
    assert [] + original.dir.names == original.dir.names;
  }

  /** Names without "." stay as they are, and a "." anywhere makes no difference. */
  lemma {:induction false} WithoutDotsIs(names: seq<string>, a: seq<string>, b: seq<string>)
    ensures "." !in names ==> WithoutDots(names) == names
    ensures WithoutDots(a + ["."] + b) == WithoutDots(a + b)
    decreases |names|
  {
    WithoutDotsConcat(a + ["."], b);
    WithoutDotsConcat(a, ["."]);
    WithoutDotsConcat(a, b);
    assert ["."][..0] == [];
    if names != [] && "." !in names {
      assert names == names[..|names| - 1] + [names[|names| - 1]];
      WithoutDotsIs(names[..|names| - 1], a, b);
    }
  }

  // ---- There and back -------------------------------------------------------------------------------------------

  lemma {:induction false} WithoutDotsConcat(a: seq<string>, b: seq<string>)
    ensures WithoutDots(a + b) == WithoutDots(a) + WithoutDots(b)
    decreases |b|
  {
    if b == [] {
      assert a + b == a;
    } else {
      assert (a + b)[..|a + b| - 1] == a + b[..|b| - 1];
      WithoutDotsConcat(a, b[..|b| - 1]);
    }
  }

  lemma {:induction false} WithoutDotsTwice(names: seq<string>)
    ensures WithoutDots(WithoutDots(names)) == WithoutDots(names)
    ensures WithoutDots(Proximate(names)) == WithoutDots(names)
    decreases |names|
  {
    if names != [] {
      var init, last := names[..|names| - 1], names[|names| - 1];
      WithoutDotsTwice(init);
      if last != "." {
        WithoutDotsConcat(WithoutDots(init), [last]);
        assert [last][..0] == [];
      } else {
        assert WithoutDots(names) == WithoutDots(init);
      }
    }
  }

  lemma {:induction false} SpecialDepthIsSpecial(names: seq<string>, isSource: bool)
    ensures SpecialDepth(names, isSource) > 0 ==> IsSpecial(names[SpecialDepth(names, isSource) - 1], isSource)
    decreases |names|
  {
    if names != [] {
      SpecialDepthIsSpecial(names[..|names| - 1], isSource);
    }
  }

  /** Dots hide no special name. */
  lemma {:induction false} SpecialDespiteDots(names: seq<string>, isSource: bool)
    ensures SpecialDepth(WithoutDots(names), isSource) == 0 <==> SpecialDepth(names, isSource) == 0
    decreases |names|
  {
    if names != [] {
      var init, last := names[..|names| - 1], names[|names| - 1];
      SpecialDespiteDots(init, isSource);
      if last == "." {
        assert WithoutDots(names) == WithoutDots(init);
      } else {
        SpecialDepthConcat(WithoutDots(init), [last], isSource);
      }
    }
  }

  lemma {:induction false} SpecialDepthConcat(a: seq<string>, b: seq<string>, isSource: bool)
    ensures SpecialDepth(a + b, isSource) ==
      if SpecialDepth(b, isSource) > 0 then |a| + SpecialDepth(b, isSource) else SpecialDepth(a, isSource)
    decreases |b|
  {
    if b == [] {
      assert a + b == a;
    } else {
      assert (a + b)[..|a + b| - 1] == a + b[..|b| - 1];
      SpecialDepthConcat(a, b[..|b| - 1], isSource);
    }
  }

  /** The same path up to "." among its names. */
  predicate SameFile(a: FilePath, b: FilePath) {
    a.dir.absolute == b.dir.absolute && WithoutDots(a.dir.names) == WithoutDots(b.dir.names) && a.name == b.name
  }

  lemma SiblingIsSpecial(parent: Path, isSource: bool, onDisk: FileSystem)
    ensures Sibling(parent, isSource, onDisk) in Siblings(isSource)
    ensures IsSpecial(Sibling(parent, isSource, onDisk), !isSource)
    ensures !IsSpecial(Sibling(parent, isSource, onDisk), isSource)
    ensures Sibling(parent, isSource, onDisk) != "."
  {
    var siblings := Siblings(isSource);
    ExistingIsListed(parent, siblings, onDisk);
  }

  lemma {:induction false} ExistingIsListed(parent: Path, siblings: seq<string>, onDisk: FileSystem)
    ensures var found := FirstExisting(parent, siblings, onDisk); found.Some? ==> found.value in siblings
    decreases |siblings|
  {
    if siblings != [] {
      ExistingIsListed(parent, siblings[1..], onDisk);
    }
  }

  /** Names with one marked: what is left of them without dots. */
  lemma WithoutDotsAround(a: seq<string>, x: string, b: seq<string>)
    requires x != "."
    ensures WithoutDots(a + [x] + b) == WithoutDots(a) + [x] + WithoutDots(b)
  {
    WithoutDotsConcat(a + [x], b);
    WithoutDotsConcat(a, [x]);
    assert [x][..0] == [];
  }

  /** Two lists that differ at one place differ. */
  lemma DifferAt(front: seq<string>, x: string, b: seq<string>, y: string, d: seq<string>)
    ensures front + [x] + b == front + [y] + d ==> x == y
  {
    assert (front + [x] + b)[|front|] == x && (front + [y] + d)[|front|] == y;
  }

  /** Where a file in the sibling directory sends the search back to. */
  lemma BackDepth(base: seq<string>, sibling: string, rest: seq<string>, isSource: bool)
    requires IsSpecial(sibling, !isSource)
    ensures var depth := SpecialDepth(base + [sibling] + Proximate(rest), !isSource);
      && (SpecialDepth(rest, !isSource) == 0 ==> depth == |base| + 1)
      && (SpecialDepth(rest, !isSource) > 0 ==> depth > |base| + 1)
  {
    SpecialDepthConcat(base + [sibling], Proximate(rest), !isSource);
    SpecialDepthConcat(base, [sibling], !isSource);
    SpecialDespiteDots(rest, !isSource);
  }

  /** From a file to its partner and back. `base` is what is above the special directory, here `source`, and `rest`
      below. */
  lemma DirectoryReturns(base: Path, source: string, rest: seq<string>, onDisk: FileSystem,
                         isSource: bool, name: string, header: string, extension: string)
    requires IsSpecial(source, isSource) && SpecialDepth(rest, isSource) == 0
    requires Stem(Stem(name) + header) + extension == name
    ensures var original := FilePath(base.(names := base.names + [source] + rest), name);
      var there := Toggled(original, isSource, header, onDisk).special;
      && there.Some?
      && var back := Toggled(there.value, !isSource, extension, onDisk).special;
         back.Some? && (SameFile(back.value, original) <==>
                          SpecialDepth(rest, !isSource) == 0 && source == Sibling(base, !isSource, onDisk))
  {
    var original := FilePath(base.(names := base.names + [source] + rest), name);
    var names := base.names + [source] + rest;
    SpecialDepthConcat(base.names + [source], rest, isSource);
    SpecialDepthConcat(base.names, [source], isSource);
    assert names[..|base.names|] == base.names && names[|base.names| + 1..] == rest;
    var sibling := Sibling(base, isSource, onDisk);
    SiblingIsSpecial(base, isSource, onDisk);
    var there := Toggled(original, isSource, header, onDisk).special.value;
    assert there == FilePath(base.(names := base.names + [sibling] + Proximate(rest)), Stem(name) + header);
    BackDepth(base.names, sibling, rest, isSource);
    BackFrom(base, sibling, rest, there, source, extension, isSource, onDisk);
    WithoutDotsAround(base.names, source, rest);
  }

  lemma BackFrom(base: Path, sibling: string, rest: seq<string>, there: FilePath, source: string,
                 extension: string, isSource: bool, onDisk: FileSystem)
    requires there.dir == base.(names := base.names + [sibling] + Proximate(rest))
    requires IsSpecial(sibling, !isSource) && IsSpecial(source, isSource)
    ensures var back := Toggled(there, !isSource, extension, onDisk).special;
      && back.Some? && back.value.dir.absolute == base.absolute && back.value.name == Stem(there.name) + extension
      && (WithoutDots(back.value.dir.names) == WithoutDots(base.names) + [source] + WithoutDots(rest) <==>
            SpecialDepth(rest, !isSource) == 0 && source == Sibling(base, !isSource, onDisk))
  {
    BackDepth(base.names, sibling, rest, isSource);
    if SpecialDepth(rest, !isSource) == 0 {
      BackBeside(base, sibling, rest, there, source, extension, isSource, onDisk);
    } else {
      BackBelow(base, sibling, rest, there, source, extension, isSource, onDisk);
    }
  }

  /** With no special name below, the search stops at the sibling directory itself. */
  lemma BackBeside(base: Path, sibling: string, rest: seq<string>, there: FilePath, source: string,
                   extension: string, isSource: bool, onDisk: FileSystem)
    requires there.dir == base.(names := base.names + [sibling] + Proximate(rest))
    requires SpecialDepth(there.dir.names, !isSource) == |base.names| + 1
    ensures var back := Toggled(there, !isSource, extension, onDisk).special;
      && back.Some? && back.value.dir.absolute == base.absolute && back.value.name == Stem(there.name) + extension
      && (WithoutDots(back.value.dir.names) == WithoutDots(base.names) + [source] + WithoutDots(rest) <==>
            source == Sibling(base, !isSource, onDisk))
  {
    var names, n, chosen := there.dir.names, |base.names|, Sibling(base, !isSource, onDisk);
    SiblingIsSpecial(base, !isSource, onDisk);
    assert names[..n] == base.names && names[n + 1..] == Proximate(rest);
    WithoutDotsAround(base.names, chosen, Proximate(Proximate(rest)));
    WithoutDotsTwice(Proximate(rest));
    WithoutDotsTwice(rest);
    DifferAt(WithoutDots(base.names), chosen, WithoutDots(rest), source, WithoutDots(rest));
  }

  /** With one below, the search stops there, and the path found stays inside the sibling directory. */
  lemma BackBelow(base: Path, sibling: string, rest: seq<string>, there: FilePath, source: string,
                  extension: string, isSource: bool, onDisk: FileSystem)
    requires there.dir == base.(names := base.names + [sibling] + Proximate(rest))
    requires SpecialDepth(there.dir.names, !isSource) > |base.names| + 1 && sibling != "." && sibling != source
    ensures var back := Toggled(there, !isSource, extension, onDisk).special;
      && back.Some? && back.value.dir.absolute == base.absolute && back.value.name == Stem(there.name) + extension
      && WithoutDots(back.value.dir.names) != WithoutDots(base.names) + [source] + WithoutDots(rest)
  {
    var more := ToggledDirectory(there, !isSource, extension, onDisk);
    var back := Toggled(there, !isSource, extension, onDisk).special.value;
    var depth := SpecialDepth(there.dir.names, !isSource);
    StaysInside(base.names, sibling, Proximate(rest), depth - 1, more, source, WithoutDots(rest));
    assert back.dir.names == (base.names + [sibling] + Proximate(rest))[..depth - 1] + more;
  }

  /** The partner's directory starts as the file's own does, down to the one that holds the special directory. */
  lemma ToggledDirectory(original: FilePath, isSource: bool, extension: string, onDisk: FileSystem)
      returns (more: seq<string>)
    requires SpecialDepth(original.dir.names, isSource) > 0
    ensures var partner := Toggled(original, isSource, extension, onDisk).special;
      && partner.Some? && partner.value.name == Stem(original.name) + extension
      && partner.value.dir.absolute == original.dir.absolute
      && partner.value.dir.names == original.dir.names[..SpecialDepth(original.dir.names, isSource) - 1] + more
  {
    var names, depth := original.dir.names, SpecialDepth(original.dir.names, isSource);
    var parent := original.dir.(names := names[..depth - 1]);
    more := [Sibling(parent, isSource, onDisk)] + Proximate(names[depth..]);
  }

  lemma StaysInside(base: seq<string>, x: string, rest: seq<string>, n: nat, more: seq<string>,
                    y: string, behind: seq<string>)
    requires |base| + 1 <= n <= |base| + 1 + |rest| && x != "." && x != y
    ensures WithoutDots((base + [x] + rest)[..n] + more) != WithoutDots(base) + [y] + behind
  {
    var tail := rest[..n - (|base| + 1)] + more;
    assert (base + [x] + rest)[..n] + more == base + [x] + tail;
    WithoutDotsAround(base, x, tail);
    DifferAt(WithoutDots(base), x, WithoutDots(tail), y, behind);
  }

  /** The directory that holds the special directory. */
  function Above(dir: Path, isSource: bool): Path {
    var depth := SpecialDepth(dir.names, isSource);
    if depth == 0 then dir else dir.(names := dir.names[..depth - 1])
  }

  /** No directory below the special directory is special for the partner, and the special directory is the one that the
      search from the partner prefers. */
  predicate Returns(dir: Path, isSource: bool, onDisk: FileSystem) {
    var depth := SpecialDepth(dir.names, isSource);
    && depth > 0 && SpecialDepth(dir.names[depth..], !isSource) == 0
    && dir.names[depth - 1] == Sibling(Above(dir, isSource), !isSource, onDisk)
  }

  lemma {:induction false} PathReturnsIff(original: FilePath, isSource: bool, partner: string, extension: string,
                                          onDisk: FileSystem)
    requires SpecialDepth(original.dir.names, isSource) > 0
    requires Stem(Stem(original.name) + partner) + extension == original.name
    ensures var there := Toggled(original, isSource, partner, onDisk).special;
      && there.Some? && there.value.name == Stem(original.name) + partner
      && var back := Toggled(there.value, !isSource, extension, onDisk).special;
         back.Some? && (SameFile(back.value, original) <==> Returns(original.dir, isSource, onDisk))
  {
    var names, depth := original.dir.names, SpecialDepth(original.dir.names, isSource);
    TakenApart(original.dir, isSource);
    DirectoryReturns(Above(original.dir, isSource), names[depth - 1], names[depth..], onDisk, isSource, original.name,
                     partner, extension);
  }

  lemma {:induction false} TakenApart(dir: Path, isSource: bool)
    requires SpecialDepth(dir.names, isSource) > 0
    ensures var depth, base := SpecialDepth(dir.names, isSource), Above(dir, isSource);
      && dir == base.(names := base.names + [dir.names[depth - 1]] + dir.names[depth..])
      && IsSpecial(dir.names[depth - 1], isSource) && SpecialDepth(dir.names[depth..], isSource) == 0
  {
    SpecialDepthIsSpecial(dir.names, isSource);
    BelowIsPlain(dir.names, isSource);
  }

  /** Toggling a source file below a source directory to its header, and the header back, gives the source file again,
      up to "." in the path, exactly when the directory returns. */
  lemma ThereAndBackIff(original: FilePath, header: string, onDisk: FileSystem)
    requires Extension(original.name) in PAIRED_SOURCES && SpecialDepth(original.dir.names, true) > 0
    requires TargetOf(Extension(original.name), NO_WISH) == Some(Target(true, header))
    ensures var there := Toggled(original, true, header, onDisk).special;
      && there.Some?
      && TargetOf(Extension(there.value.name), NO_WISH) == Some(Target(false, Extension(original.name)))
      && var back := Toggled(there.value, false, Extension(original.name), onDisk).special;
         back.Some? && (SameFile(back.value, original) <==> Returns(original.dir, true, onDisk))
  {
    PairedName(original.name, header);
    PathReturnsIff(original, true, header, Extension(original.name), onDisk);
  }

  /** And the same from a header below an include directory to its source file and back. */
  lemma {:induction false} HeaderThereAndBackIff(original: FilePath, source: string, onDisk: FileSystem)
    requires Extension(original.name) in PAIRED_HEADERS && SpecialDepth(original.dir.names, false) > 0
    requires TargetOf(Extension(original.name), NO_WISH) == Some(Target(false, source))
    ensures var there := Toggled(original, false, source, onDisk).special;
      && there.Some?
      && TargetOf(Extension(there.value.name), NO_WISH) == Some(Target(true, Extension(original.name)))
      && var back := Toggled(there.value, true, Extension(original.name), onDisk).special;
         back.Some? && (SameFile(back.value, original) <==> Returns(original.dir, false, onDisk))
  {
    PairedHeaderName(original.name, source);
    PathReturnsIff(original, false, source, Extension(original.name), onDisk);
  }

  lemma {:induction false} BelowIsPlain(names: seq<string>, isSource: bool)
    ensures SpecialDepth(names[SpecialDepth(names, isSource)..], isSource) == 0
    decreases |names|
  {
    if names != [] && !IsSpecial(names[|names| - 1], isSource) {
      var init, depth := names[..|names| - 1], SpecialDepth(names, isSource);
      BelowIsPlain(init, isSource);
      assert names[depth..] == init[depth..] + [names[|names| - 1]];
      SpecialDepthConcat(init[depth..], [names[|names| - 1]], isSource);
    }
  }

  /** The names of the pair: same stem, and extensions that lead to each other. */
  lemma PairedName(name: string, header: string)
    requires Extension(name) in PAIRED_SOURCES && TargetOf(Extension(name), NO_WISH) == Some(Target(true, header))
    ensures Stem(Stem(name) + header) + Extension(name) == name && Extension(Stem(name) + header) == header
    ensures TargetOf(header, NO_WISH) == Some(Target(false, Extension(name)))
  {
    LowerCase(Extension(name));
    NameIsStemAndExtension(name);
    SourceExtensionReturnsIff(Extension(name));
    HeaderOf(Extension(name));
    LowerCase(header);
    NameTakesApart(Stem(name), header);
  }

  lemma PairedHeaderName(name: string, source: string)
    requires Extension(name) in PAIRED_HEADERS && TargetOf(Extension(name), NO_WISH) == Some(Target(false, source))
    ensures Stem(Stem(name) + source) + Extension(name) == name && Extension(Stem(name) + source) == source
    ensures TargetOf(source, NO_WISH) == Some(Target(true, Extension(name)))
  {
    NameIsStemAndExtension(name);
    HeaderBack(Extension(name));
    PairedSource(Extension(name), source);
    NameTakesApart(Stem(name), source);
  }

  lemma PairedSource(ext: string, source: string)
    requires ext in PAIRED_HEADERS && TargetOf(ext, NO_WISH) == Some(Target(false, source))
    ensures ext != "" && |source| > 1 && source[0] == '.' && forall i :: 1 <= i < |source| ==> source[i] != '.'
  {
    SourceOf(ext);
    LowerCase(source);
  }

  /** Beside the file, toggling twice always comes back, whichever of the two one starts from. */
  lemma SamePlaceReturns(original: FilePath, isSource: bool, partner: string, onDisk: FileSystem)
    requires Extension(original.name) in if isSource then PAIRED_SOURCES else PAIRED_HEADERS
    requires TargetOf(Extension(original.name), NO_WISH) == Some(Target(isSource, partner))
    ensures var there := Toggled(original, isSource, partner, onDisk).samePlace;
      && TargetOf(Extension(there.name), NO_WISH) == Some(Target(!isSource, Extension(original.name)))
      && Toggled(there, !isSource, Extension(original.name), onDisk).samePlace == original
  {
    if isSource {
      PairedName(original.name, partner);
    } else {
      PairedHeaderName(original.name, partner);
    }
  }
}
