/** The file tree of the frontend's store (app/src/reducers/workspace.js). Each loaded node lists its directories, then
    its files, both sorted by title. The reducer works on a deep copy of the stored tree, so trees are values here, and
    a change below a node shows as a rebuilt path to it.
 */
module FileTrees {
  import opened Wrappers
  import opened ChildSearch

  /** `notLeaf` is `isLeaf: false`; `dimmed` is the style of hidden files. */
  datatype Node = Node(title: string, key: string, split: nat, children: Children, notLeaf: bool, dimmed: bool)

  /** A node that was never loaded has no list of children. */
  datatype Children = Unloaded | Loaded(nodes: seq<Node>)

  function Titles(nodes: seq<Node>): (titles: seq<string>)
    ensures |titles| == |nodes| && forall i :: 0 <= i < |nodes| ==> titles[i] == nodes[i].title
  {
    seq(|nodes|, i requires 0 <= i < |nodes| => nodes[i].title)
  }

  /** The contents of one directory as the backend lists it. Paths are sequences of names, the first of which is the
      title of the root. */
  datatype Branch = Branch(origin: seq<string>, directories: Option<seq<string>>, files: Option<seq<string>>)

  function OrEmpty(names: Option<seq<string>>): seq<string> {
    if names.Some? then names.value else []
  }

  // ---- Sorting --------------------------------------------------------------------------------------------------

  function InsertTitle(titles: seq<string>, title: string, cmp: Compare): seq<string> {
    if titles == [] || cmp(title, titles[0]) < 0 then [title] + titles
    else [titles[0]] + InsertTitle(titles[1..], title, cmp)
  }

  /** Array.prototype.sort with localeCompare. */
  function Sorted(titles: seq<string>, cmp: Compare): seq<string> {
    if titles == [] then [] else InsertTitle(Sorted(titles[..|titles| - 1], cmp), titles[|titles| - 1], cmp)
  }

  ghost predicate Distinct(titles: seq<string>) {
    forall i, j :: 0 <= i < j < |titles| ==> titles[i] != titles[j]
  }

  lemma {:induction false} InsertAdds(titles: seq<string>, title: string, cmp: Compare)
    ensures multiset(InsertTitle(titles, title, cmp)) == multiset(titles) + multiset{title}
    decreases |titles|
  {
    if titles != [] && cmp(title, titles[0]) >= 0 {
      InsertAdds(titles[1..], title, cmp);
      assert titles == [titles[0]] + titles[1..];
    }
  }

  /** Everything in the list is above the bound. */
  ghost predicate Above(bound: string, titles: seq<string>, cmp: Compare) {
    forall i :: 0 <= i < |titles| ==> cmp(bound, titles[i]) < 0
  }

  lemma {:induction false} InsertAbove(bound: string, titles: seq<string>, title: string, cmp: Compare)
    requires Above(bound, titles, cmp) && cmp(bound, title) < 0
    ensures Above(bound, InsertTitle(titles, title, cmp), cmp)
    decreases |titles|
  {
    if titles != [] && cmp(title, titles[0]) >= 0 {
      InsertAbove(bound, titles[1..], title, cmp);
    }
  }

  lemma {:induction false} InsertKeepsAscending(titles: seq<string>, title: string, cmp: Compare)
    requires IsOrder(cmp) && Ascending(titles, cmp) && title !in titles
    ensures Ascending(InsertTitle(titles, title, cmp), cmp)
    decreases |titles|
  {
    if titles == [] {
    } else if cmp(title, titles[0]) < 0 {
      forall i | 0 < i < |titles|
        ensures cmp(title, titles[i]) < 0
      {
        assert InRow(cmp, title, titles[0], titles[i]);
      }
    } else {
      assert titles[0] in titles && cmp(titles[0], title) < 0;
      InsertKeepsAscending(titles[1..], title, cmp);
      InsertAbove(titles[0], titles[1..], title, cmp);
    }
  }

  lemma {:induction false} SortedAscends(titles: seq<string>, cmp: Compare)
    requires IsOrder(cmp) && Distinct(titles)
    ensures Ascending(Sorted(titles, cmp), cmp)
    ensures multiset(Sorted(titles, cmp)) == multiset(titles)
    decreases |titles|
  {
    if titles != [] {
      var front, last := titles[..|titles| - 1], titles[|titles| - 1];
      SortedAscends(front, cmp);
      assert titles == front + [last];
      assert last !in multiset(front) && last !in multiset(Sorted(front, cmp));
      InsertKeepsAscending(Sorted(front, cmp), last, cmp);
      InsertAdds(Sorted(front, cmp), last, cmp);
    }
  }

  // ---- SET_FILE_TREE_BRANCH -------------------------------------------------------------------------------------

  function PathText(names: seq<string>): string {
    if names == [] then "" else PathText(names[..|names| - 1]) + "/" + names[|names| - 1]
  }

  /** catenateOriginSplit: the names run together, without slashes in between. */
  function RunTogether(names: seq<string>): string {
    if names == [] then "/" else RunTogether(names[..|names| - 1]) + names[|names| - 1]
  }

  function DirectoryNodes(origin: seq<string>, titles: seq<string>): seq<Node> {
    seq(|titles|, i requires 0 <= i < |titles| =>
      Node(titles[i], PathText(origin) + "/" + titles[i], 0, Unloaded, true, false))
  }

  function FileNodes(origin: seq<string>, titles: seq<string>): seq<Node> {
    seq(|titles|, i requires 0 <= i < |titles| =>
      Node(titles[i], PathText(origin) + "/" + titles[i], 0, Unloaded, false, titles[i] != "" && titles[i][0] == '.'))
  }

  function WithChildren(node: Node, b: Branch, cmp: Compare): Node {
    var dirs, files := Sorted(OrEmpty(b.directories), cmp), Sorted(OrEmpty(b.files), cmp);
    node.(children := Loaded(DirectoryNodes(b.origin, dirs) + FileNodes(b.origin, files)), split := |dirs|)
  }

  function Inserted(names: seq<string>, depth: nat): Node
    requires depth < |names|
  {
    Node(names[depth], RunTogether(names[..depth]), 0, Unloaded, false, false)
  }

  /** A node passed on the way down, and the index of the child the way goes on to. */
  datatype Stop = Stop(node: Node, index: nat)

  /** One turn of the loop: find the directory named next, or insert it. None is a TypeError: on a node that was never
      loaded, or when the search reads past the end, which it may if the split index lies behind the list. */
  ghost function Descend(node: Node, depth: nat, b: Branch, cmp: Compare): (stop: Option<Stop>)
    requires depth < |b.origin| && IsOrder(cmp)
    ensures stop.Some? ==> stop.value.node.children.Loaded? && stop.value.index < |stop.value.node.children.nodes|
  {
    if node.children == Unloaded then None
    else
      var nodes := node.children.nodes;
      var r := Search(Titles(nodes), node.split, b.origin[depth], false, cmp);
      if r == Crash then None
      else if r.isMatch then Some(Stop(node, r.index))
      else
        var more := nodes[..r.index] + [Inserted(b.origin, depth)] + nodes[r.index..];
        Some(Stop(node.(children := Loaded(more), split := node.split + 1), r.index))
  }

  function Replaced(stop: Stop, child: Node): Node
    requires stop.node.children.Loaded? && stop.index < |stop.node.children.nodes|
  {
    stop.node.(children := Loaded(stop.node.children.nodes[stop.index := child]))
  }

  /** The subtree after the branch was set in it; `depth` is how far along the origin the node is. */
  ghost function SetBranch(node: Node, depth: nat, b: Branch, cmp: Compare): Option<Node>
    requires depth <= |b.origin| && IsOrder(cmp)
    decreases |b.origin| - depth
  {
    if depth == |b.origin| then Some(WithChildren(node, b, cmp))
    else
      match Descend(node, depth, b, cmp)
      case None => None
      case Some(stop) =>
        match SetBranch(stop.node.children.nodes[stop.index], depth + 1, b, cmp)
        case None => None
        case Some(child) => Some(Replaced(stop, child))
  }

  /** An origin of one name replaces the whole tree. */
  ghost function BranchSet(tree: Node, b: Branch, cmp: Compare): Option<Node>
    requires b.origin != [] && IsOrder(cmp)
  {
    if |b.origin| > 1 then SetBranch(tree, 1, b, cmp)
    else Some(WithChildren(Node(b.origin[0], PathText(b.origin), 0, Loaded([]), true, false), b, cmp))
  }

  predicate WayOk(way: seq<Stop>) {
    forall i :: 0 <= i < |way| ==> way[i].node.children.Loaded? && way[i].index < |way[i].node.children.nodes|
  }

  /** The nodes passed on the way down, with the one they lead to changed. */
  function Plug(way: seq<Stop>, node: Node): Node
    requires WayOk(way)
  {
    if way == [] then node else Plug(way[..|way| - 1], Replaced(way[|way| - 1], node))
  }

  method SetFileTreeBranch(tree: Node, b: Branch, cmp: Compare) returns (res: Option<Node>)
    requires b.origin != [] && IsOrder(cmp)
    ensures res == BranchSet(tree, b, cmp)
  {
    if |b.origin| <= 1 {
      return Some(WithChildren(Node(b.origin[0], PathText(b.origin), 0, Loaded([]), true, false), b, cmp));
    }
    var curNode := tree;
    var way: seq<Stop> := [];
    for depth := 1 to |b.origin|
      invariant WayOk(way)
      invariant BranchSet(tree, b, cmp) == Plugged(way, SetBranch(curNode, depth, b, cmp))
    {
      if curNode.children == Unloaded {
        return None;
      }
      var nodes := curNode.children.nodes;
      var searchResult := BinaryChildSearch(Titles(nodes), curNode.split, b.origin[depth], false, cmp);
      if searchResult == Crash {
        return None;
      }
      ghost var stop := Descend(curNode, depth, b, cmp).value;
      var index := searchResult.index;
      if !searchResult.isMatch {
        nodes := nodes[..index] + [Inserted(b.origin, depth)] + nodes[index..];
        curNode := curNode.(children := Loaded(nodes), split := curNode.split + 1);
      }
      assert stop == Stop(curNode, index);
      way := way + [Stop(curNode, index)];
      curNode := nodes[index];
    }
    return Some(Plug(way, WithChildren(curNode, b, cmp)));
  }

  ghost function Plugged(way: seq<Stop>, node: Option<Node>): Option<Node>
    requires WayOk(way)
  {
    if node.Some? then Some(Plug(way, node.value)) else None
  }

  lemma PlugOne(way: seq<Stop>, stop: Stop, child: Option<Node>)
    requires WayOk(way) && stop.node.children.Loaded? && stop.index < |stop.node.children.nodes|
    ensures WayOk(way + [stop])
    ensures Plugged(way + [stop], child) ==
      Plugged(way, if child.Some? then Some(Replaced(stop, child.value)) else None)
  {
    assert (way + [stop])[..|way|] == way;
  }

  // ---- Well-formed trees and plain lookup -----------------------------------------------------------------------

  /** In every loaded node both segments are sorted, without repetition, and the split index is their boundary. */
  ghost predicate WellFormed(node: Node, cmp: Compare)
    decreases node
  {
    match node.children
    case Unloaded => true
    case Loaded(nodes) =>
      && node.split <= |nodes|
      && Ascending(Titles(nodes)[..node.split], cmp)
      && Ascending(Titles(nodes)[node.split..], cmp)
      && forall i :: 0 <= i < |nodes| ==> WellFormed(nodes[i], cmp)
  }

  function Titled(nodes: seq<Node>, title: string): Option<Node> {
    if nodes == [] then None else if nodes[0].title == title then Some(nodes[0]) else Titled(nodes[1..], title)
  }

  /** The child a name stands for: a directory, or else, if asked for, a file. */
  function Child(node: Node, title: string, withFiles: bool): Option<Node> {
    if node.children == Unloaded || node.split > |node.children.nodes| then None
    else ChildAmong(node.children.nodes[..node.split], node.children.nodes[node.split..], title, withFiles)
  }

  function ChildAmong(dirs: seq<Node>, files: seq<Node>, title: string, withFiles: bool): Option<Node> {
    var dir := Titled(dirs, title);
    if dir.Some? || !withFiles then dir else Titled(files, title)
  }

  /** Plain lookup of a path below a node. */
  function Resolve(node: Node, names: seq<string>, withFiles: bool): Option<Node>
    decreases |names|
  {
    if names == [] then Some(node)
    else
      match Child(node, names[0], withFiles)
      case None => None
      case Some(child) => Resolve(child, names[1..], withFiles)
  }

  lemma {:induction false} TitledAround(a: seq<Node>, c: Node, b: seq<Node>, title: string)
    ensures Titled(a + [c] + b, title) ==
      if Titled(a, title).Some? then Titled(a, title) else if c.title == title then Some(c) else Titled(b, title)
    decreases |a|
  {
    if a == [] {
      assert a + [c] + b == [c] + b;
      assert ([c] + b)[1..] == b;
    } else {
      assert (a + [c] + b)[1..] == a[1..] + [c] + b;
      TitledAround(a[1..], c, b, title);
    }
  }

  lemma {:induction false} TitledAppend(a: seq<Node>, b: seq<Node>, title: string)
    ensures Titled(a + b, title) == if Titled(a, title).Some? then Titled(a, title) else Titled(b, title)
    decreases |a|
  {
    if a == [] {
      assert a + b == b;
    } else {
      assert (a + b)[1..] == a[1..] + b;
      TitledAppend(a[1..], b, title);
    }
  }

  lemma {:induction false} TitledIffIn(nodes: seq<Node>, title: string)
    ensures Titled(nodes, title).Some? <==> title in Titles(nodes)
    ensures Titled(nodes, title).Some? ==>
      Titled(nodes, title).value in nodes && Titled(nodes, title).value.title == title
    decreases |nodes|
  {
    if nodes != [] {
      TitledIffIn(nodes[1..], title);
      assert Titles(nodes) == [nodes[0].title] + Titles(nodes[1..]);
    }
  }

  lemma {:induction false} TitledAt(nodes: seq<Node>, i: nat, cmp: Compare)
    requires IsOrder(cmp) && i < |nodes| && Ascending(Titles(nodes), cmp)
    ensures Titled(nodes[..i], nodes[i].title) == None && Titled(nodes, nodes[i].title) == Some(nodes[i])
  {
    TitledIffIn(nodes[..i], nodes[i].title);
    assert nodes == nodes[..i] + [nodes[i]] + nodes[i + 1..];
    TitledAround(nodes[..i], nodes[i], nodes[i + 1..], nodes[i].title);
  }

  /** Where one turn of the loop stands: below `stop.node`, which is `node` or has one directory more, at the directory
      named next. */
  lemma {:induction false} DescendReaches(node: Node, depth: nat, b: Branch, cmp: Compare)
    requires depth < |b.origin| && IsOrder(cmp) && WellFormed(node, cmp) && node.children.Loaded?
    ensures var name, stop := b.origin[depth], Descend(node, depth, b, cmp);
      && stop.Some? && stop.value.node.title == node.title && WellFormed(stop.value.node, cmp)
      && stop.value.index < stop.value.node.split
      && stop.value.node.children.nodes[stop.value.index].title == name
      && (Child(node, name, false).Some? ==>
            stop.value.node == node && node.children.nodes[stop.value.index] == Child(node, name, false).value)
      && (Child(node, name, false) == None ==>
            && stop.value.node.children.nodes[stop.value.index] == Inserted(b.origin, depth)
            && HasOneMore(node, stop.value))
  {
    SearchIsChild(node, b.origin[depth], cmp);
    var r := Search(Titles(node.children.nodes), node.split, b.origin[depth], false, cmp);
    if !r.isMatch {
      InsertionWellFormed(node, Inserted(b.origin, depth), r.index, cmp);
    }
  }

  /** In a well-formed node the search among the directories finds what plain lookup finds, or else the gap for it. */
  lemma SearchIsChild(node: Node, name: string, cmp: Compare)
    requires IsOrder(cmp) && WellFormed(node, cmp) && node.children.Loaded?
    ensures var nodes, r := node.children.nodes, Search(Titles(node.children.nodes), node.split, name, false, cmp);
      && r.Found? && r.index <= node.split
      && Child(node, name, false) == (if r.isMatch && r.index < node.split then Some(nodes[r.index]) else None)
      && (r.isMatch ==> r.index < node.split && nodes[r.index].title == name)
      && (!r.isMatch ==>
            var dirs := Titles(nodes)[..node.split]; Ascending(dirs[..r.index] + [name] + dirs[r.index..], cmp))
  {
    var nodes, split := node.children.nodes, node.split;
    var r := Search(Titles(nodes), split, name, false, cmp);
    SearchFinds(Titles(nodes), split, name, false, cmp);
    assert Titles(nodes[..split]) == Titles(nodes)[..split];
    TitledIffIn(nodes[..split], name);
    if r.isMatch {
      TitledAt(nodes[..split], r.index, cmp);
    }
  }

  /** `stop.node` is `node` with a new directory at `stop.index`. */
  ghost predicate HasOneMore(node: Node, stop: Stop) {
    && node.children.Loaded? && stop.node.children.Loaded? && stop.index <= node.split <= |node.children.nodes|
    && stop.index < |stop.node.children.nodes|
    && var nodes := node.children.nodes;
       var added := stop.node.children.nodes[stop.index];
       var more := nodes[..stop.index] + [added] + nodes[stop.index..];
       stop.node == node.(children := Loaded(more), split := node.split + 1)
  }

  lemma InsertionWellFormed(node: Node, added: Node, index: nat, cmp: Compare)
    requires WellFormed(node, cmp) && node.children.Loaded? && index <= node.split && WellFormed(added, cmp)
    requires var dirs := Titles(node.children.nodes)[..node.split];
      Ascending(dirs[..index] + [added.title] + dirs[index..], cmp)
    ensures var nodes := node.children.nodes;
      WellFormed(node.(children := Loaded(nodes[..index] + [added] + nodes[index..]), split := node.split + 1), cmp)
  {
    var nodes, dirs := node.children.nodes, Titles(node.children.nodes)[..node.split];
    var more := nodes[..index] + [added] + nodes[index..];
    assert Titles(more)[..node.split + 1] == dirs[..index] + [added.title] + dirs[index..];
    assert Titles(more)[node.split + 1..] == Titles(nodes)[node.split..];
    forall i | 0 <= i < |more|
      ensures WellFormed(more[i], cmp)
    {
      assert more[i] == if i < index then nodes[i] else if i == index then added else nodes[i - 1];
    }
  }

  /** A new directory hides nothing: every other name still means the same child. */
  lemma OneMoreChild(node: Node, stop: Stop, title: string, withFiles: bool)
    requires HasOneMore(node, stop) && title != stop.node.children.nodes[stop.index].title
    ensures Child(stop.node, title, withFiles) == Child(node, title, withFiles)
  {
    var nodes, i := node.children.nodes, stop.index;
    var added, dirs := stop.node.children.nodes[i], nodes[..node.split];
    assert stop.node.children.nodes[..node.split + 1] == dirs[..i] + [added] + dirs[i..];
    assert stop.node.children.nodes[node.split + 1..] == nodes[node.split..];
    TitledAround(dirs[..i], added, dirs[i..], title);
    assert dirs == dirs[..i] + dirs[i..];
    TitledAppend(dirs[..i], dirs[i..], title);
  }

  /** Replacing the directory at `stop.index` by one of the same title changes what that name means, and no more. */
  lemma ReplacedChild(stop: Stop, child: Node, title: string, withFiles: bool, cmp: Compare)
    requires IsOrder(cmp) && WellFormed(stop.node, cmp) && stop.node.children.Loaded?
    requires stop.index < stop.node.split && child.title == stop.node.children.nodes[stop.index].title
    ensures Child(Replaced(stop, child), title, withFiles) ==
      if title == child.title then Some(child) else Child(stop.node, title, withFiles)
  {
    var nodes, split, i := stop.node.children.nodes, stop.node.split, stop.index;
    var dirs, dirs' := nodes[..split], nodes[i := child][..split];
    assert dirs == dirs[..i] + [dirs[i]] + dirs[i + 1..] && dirs' == dirs[..i] + [child] + dirs[i + 1..];
    assert nodes[i := child][split..] == nodes[split..];
    TitledAround(dirs[..i], dirs[i], dirs[i + 1..], title);
    TitledAround(dirs[..i], child, dirs[i + 1..], title);
    if title == child.title {
      assert Titles(dirs) == Titles(nodes)[..split];
      TitledAt(dirs, i, cmp);
    }
  }

  lemma ReplacedWellFormed(stop: Stop, child: Node, cmp: Compare)
    requires WellFormed(stop.node, cmp) && stop.node.children.Loaded? && stop.index < |stop.node.children.nodes|
    requires child.title == stop.node.children.nodes[stop.index].title
    ensures WellFormed(Replaced(stop, child), cmp) <==> WellFormed(child, cmp)
  {
    assert stop.node.children.nodes[stop.index := child][stop.index] == child;
  }

  // ---- What setting a branch does to a tree ---------------------------------------------------------------------

  /** A directory listing names nothing twice. */
  ghost predicate Listing(b: Branch) {
    Distinct(OrEmpty(b.directories)) && Distinct(OrEmpty(b.files))
  }

  /** The node lists the directories of the branch, sorted, then its files, sorted. */
  ghost predicate Lists(node: Node, b: Branch, cmp: Compare) {
    node.children.Loaded? && node.split <= |node.children.nodes| &&
    var titles := Titles(node.children.nodes);
    var dirs, files := titles[..node.split], titles[node.split..];
    && Ascending(dirs, cmp) && multiset(dirs) == multiset(OrEmpty(b.directories))
    && Ascending(files, cmp) && multiset(files) == multiset(OrEmpty(b.files))
  }

  lemma BranchTitles(origin: seq<string>, dirs: seq<string>, files: seq<string>)
    ensures var titles := Titles(DirectoryNodes(origin, dirs) + FileNodes(origin, files));
      titles[..|dirs|] == dirs && titles[|dirs|..] == files
  {
  }

  lemma ChildrenListed(node: Node, b: Branch, cmp: Compare)
    requires IsOrder(cmp) && Listing(b)
    ensures Lists(WithChildren(node, b, cmp), b, cmp) && WellFormed(WithChildren(node, b, cmp), cmp)
  {
    SortedAscends(OrEmpty(b.directories), cmp);
    SortedAscends(OrEmpty(b.files), cmp);
    BranchTitles(b.origin, Sorted(OrEmpty(b.directories), cmp), Sorted(OrEmpty(b.files), cmp));
  }

  lemma {:induction false} SubtreeStaysWellFormed(node: Node, depth: nat, b: Branch, cmp: Compare)
    requires IsOrder(cmp) && depth <= |b.origin| && WellFormed(node, cmp) && Listing(b)
    requires SetBranch(node, depth, b, cmp).Some?
    ensures WellFormed(SetBranch(node, depth, b, cmp).value, cmp)
    ensures SetBranch(node, depth, b, cmp).value.title == node.title
    decreases |b.origin| - depth
  {
    if depth == |b.origin| {
      ChildrenListed(node, b, cmp);
    } else {
      DescendReaches(node, depth, b, cmp);
      var stop := Descend(node, depth, b, cmp).value;
      var below := stop.node.children.nodes[stop.index];
      SubtreeStaysWellFormed(below, depth + 1, b, cmp);
      ReplacedWellFormed(stop, SetBranch(below, depth + 1, b, cmp).value, cmp);
    }
  }

  /** The child at a name after the branch was set: the changed subtree under the name the origin goes through, and
      what was there before under every other name. */
  lemma ChildAfterSet(node: Node, depth: nat, b: Branch, title: string, withFiles: bool, cmp: Compare)
    requires IsOrder(cmp) && depth < |b.origin| && WellFormed(node, cmp) && Listing(b)
    requires SetBranch(node, depth, b, cmp).Some?
    ensures var node' := SetBranch(node, depth, b, cmp).value;
      var name, present := b.origin[depth], Child(node, b.origin[depth], false);
      if title != name then Child(node', title, withFiles) == Child(node, title, withFiles)
      else var below := if present.Some? then present.value else Inserted(b.origin, depth);
           && WellFormed(below, cmp) && SetBranch(below, depth + 1, b, cmp).Some?
           && Child(node', name, withFiles) == SetBranch(below, depth + 1, b, cmp)
  {
    DescendReaches(node, depth, b, cmp);
    var stop := Descend(node, depth, b, cmp).value;
    var below := stop.node.children.nodes[stop.index];
    SubtreeStaysWellFormed(below, depth + 1, b, cmp);
    ReplacedChild(stop, SetBranch(below, depth + 1, b, cmp).value, title, withFiles, cmp);
    if title != b.origin[depth] && Child(node, b.origin[depth], false) == None {
      OneMoreChild(node, stop, title, withFiles);
    }
  }

  /** Only the last directory of the origin may be missing: a new one has nothing loaded to descend into. */
  lemma OnlyOriginMissing(node: Node, depth: nat, b: Branch, cmp: Compare)
    requires IsOrder(cmp) && depth < |b.origin| && WellFormed(node, cmp) && Listing(b)
    requires SetBranch(node, depth, b, cmp).Some? && Child(node, b.origin[depth], false) == None
    ensures depth + 1 == |b.origin|
  {
    ChildAfterSet(node, depth, b, b.origin[depth], false, cmp);
  }

  /** After a successful update, the origin holds its directories, sorted, and then its files, sorted. */
  lemma {:induction false} OriginIsSet(node: Node, depth: nat, b: Branch, withFiles: bool, cmp: Compare)
    requires IsOrder(cmp) && depth <= |b.origin| && WellFormed(node, cmp) && Listing(b)
    requires SetBranch(node, depth, b, cmp).Some?
    ensures var found := Resolve(SetBranch(node, depth, b, cmp).value, b.origin[depth..], withFiles);
      found.Some? && Lists(found.value, b, cmp)
    decreases |b.origin| - depth
  {
    if depth == |b.origin| {
      ChildrenListed(node, b, cmp);
    } else {
      ChildAfterSet(node, depth, b, b.origin[depth], withFiles, cmp);
      var present := Child(node, b.origin[depth], false);
      OriginIsSet(if present.Some? then present.value else Inserted(b.origin, depth), depth + 1, b, withFiles, cmp);
      assert b.origin[depth..][1..] == b.origin[depth + 1..];
    }
  }

  /** Every path that neither leads to the origin nor passes through it resolves to the very node it did before. */
  lemma {:induction false} OtherPathsKept(node: Node, depth: nat, b: Branch, path: seq<string>, withFiles: bool,
                                          cmp: Compare)
    requires IsOrder(cmp) && depth <= |b.origin| && WellFormed(node, cmp) && Listing(b)
    requires SetBranch(node, depth, b, cmp).Some?
    requires !(path <= b.origin[depth..]) && !(b.origin[depth..] <= path)
    ensures Resolve(SetBranch(node, depth, b, cmp).value, path, withFiles) == Resolve(node, path, withFiles)
    decreases |b.origin| - depth
  {
    ChildAfterSet(node, depth, b, path[0], withFiles, cmp);
    if path[0] == b.origin[depth] {
      ApartBelow(path, b.origin, depth);
      if Child(node, path[0], false) == None {
        OnlyOriginMissing(node, depth, b, cmp);
      }
      OtherPathsKept(Child(node, path[0], false).value, depth + 1, b, path[1..], withFiles, cmp);
    }
  }

  lemma ApartBelow(path: seq<string>, origin: seq<string>, depth: nat)
    requires depth < |origin| && path != [] && path[0] == origin[depth]
    requires !(path <= origin[depth..]) && !(origin[depth..] <= path)
    ensures depth + 1 < |origin| && !(path[1..] <= origin[depth + 1..]) && !(origin[depth + 1..] <= path[1..])
  {
    assert origin[depth..] == [path[0]] + origin[depth + 1..] && path == [path[0]] + path[1..];
  }

  /** A directory on the way keeps all its children but the next one on the way, and has as many as before unless that
      one was missing; then it is the parent of the origin and has one more. */
  ghost predicate KeptOnTheWay(before: Node, after: Node, next: string, isParent: bool, title: string,
                               withFiles: bool) {
    && before.children.Loaded? && after.children.Loaded?
    && after == before.(children := after.children, split := after.split)
    && (title != next ==> Child(after, title, withFiles) == Child(before, title, withFiles))
    && |after.children.nodes| == |before.children.nodes| + (if Child(before, next, false).Some? then 0 else 1)
    && (Child(before, next, false) == None ==> isParent)
  }

  lemma KeptHere(node: Node, depth: nat, b: Branch, title: string, withFiles: bool, cmp: Compare)
    requires IsOrder(cmp) && depth < |b.origin| && WellFormed(node, cmp) && Listing(b)
    requires SetBranch(node, depth, b, cmp).Some?
    ensures KeptOnTheWay(node, SetBranch(node, depth, b, cmp).value, b.origin[depth], depth + 1 == |b.origin|,
                         title, withFiles)
  {
    ChildAfterSet(node, depth, b, title, withFiles, cmp);
    DescendReaches(node, depth, b, cmp);
    if Child(node, b.origin[depth], false) == None {
      OnlyOriginMissing(node, depth, b, cmp);
    }
  }

  lemma WayStep(node: Node, child: Node, origin: seq<string>, depth: nat, upTo: nat)
    requires depth < upTo <= |origin| && Child(node, origin[depth], false) == Some(child)
    ensures Resolve(node, origin[depth..upTo], false) == Resolve(child, origin[depth + 1..upTo], false)
  {
    assert origin[depth..upTo][1..] == origin[depth + 1..upTo];
  }

  lemma {:induction false} AncestorsKept(node: Node, depth: nat, b: Branch, upTo: nat, title: string, withFiles: bool,
                                         cmp: Compare)
    requires IsOrder(cmp) && depth <= upTo < |b.origin| && WellFormed(node, cmp) && Listing(b)
    requires SetBranch(node, depth, b, cmp).Some?
    ensures var before, after := Resolve(node, b.origin[depth..upTo], false),
                                 Resolve(SetBranch(node, depth, b, cmp).value, b.origin[depth..upTo], false);
      before.Some? && after.Some?
      && KeptOnTheWay(before.value, after.value, b.origin[upTo], upTo + 1 == |b.origin|, title, withFiles)
    decreases upTo - depth
  {
    if depth == upTo {
      KeptHere(node, depth, b, title, withFiles, cmp);
    } else {
      ChildAfterSet(node, depth, b, b.origin[depth], false, cmp);
      if Child(node, b.origin[depth], false) == None {
        OnlyOriginMissing(node, depth, b, cmp);
      }
      var child := Child(node, b.origin[depth], false).value;
      WayStep(node, child, b.origin, depth, upTo);
      WayStep(SetBranch(node, depth, b, cmp).value, SetBranch(child, depth + 1, b, cmp).value, b.origin, depth, upTo);
      AncestorsKept(child, depth + 1, b, upTo, title, withFiles, cmp);
    }
  }

  /** The update succeeds exactly when the parent of the origin is in the tree and loaded. */
  lemma {:induction false} SetSucceedsIff(node: Node, depth: nat, b: Branch, cmp: Compare)
    requires IsOrder(cmp) && depth < |b.origin| && WellFormed(node, cmp) && Listing(b)
    ensures var parent := Resolve(node, b.origin[depth..|b.origin| - 1], false);
      SetBranch(node, depth, b, cmp).Some? <==> parent.Some? && parent.value.children.Loaded?
    decreases |b.origin| - depth
  {
    if node.children.Loaded? {
      DescendReaches(node, depth, b, cmp);
      var present := Child(node, b.origin[depth], false);
      if depth + 1 < |b.origin| {
        assert b.origin[depth..|b.origin| - 1][1..] == b.origin[depth + 1..|b.origin| - 1];
        if present.Some? {
          TitledIffIn(node.children.nodes[..node.split], b.origin[depth]);
          SetSucceedsIff(present.value, depth + 1, b, cmp);
        }
      }
    }
  }

  // ---- The whole update -------------------------------------------------------------------------------------------

  /** Setting the branch anywhere in a well-formed tree leaves a well-formed tree that lists the branch at its origin.
      An origin of one name makes a new root of that name, whatever was there. */
  lemma {:induction false} BranchIsSet(tree: Node, b: Branch, withFiles: bool, cmp: Compare)
    requires IsOrder(cmp) && WellFormed(tree, cmp) && Listing(b) && b.origin != [] && BranchSet(tree, b, cmp).Some?
    ensures var t := BranchSet(tree, b, cmp).value;
      && WellFormed(t, cmp)
      && t.title == (if |b.origin| == 1 then b.origin[0] else tree.title)
      && (|b.origin| == 1 ==> t.key == "/" + b.origin[0] && t.notLeaf && !t.dimmed)
      && var found := Resolve(t, b.origin[1..], withFiles);
         found.Some? && Lists(found.value, b, cmp)
  {
    if |b.origin| == 1 {
      var root := Node(b.origin[0], PathText(b.origin), 0, Loaded([]), true, false);
      ChildrenListed(root, b, cmp);
      PathTextIs([], [], b.origin[0]);
      assert b.origin == [b.origin[0]] && b.origin[1..] == [];
    } else {
      SubtreeStaysWellFormed(tree, 1, b, cmp);
      OriginIsSet(tree, 1, b, withFiles, cmp);
    }
  }

  /** It succeeds for an origin of one name, and else exactly if the parent of the origin is in the tree and loaded. */
  lemma {:induction false} BranchIsSetIff(tree: Node, b: Branch, cmp: Compare)
    requires IsOrder(cmp) && WellFormed(tree, cmp) && Listing(b) && b.origin != []
    ensures BranchSet(tree, b, cmp).Some? <==>
      || |b.origin| == 1
      || (var parent := Resolve(tree, b.origin[1..|b.origin| - 1], false);
          parent.Some? && parent.value.children.Loaded?)
  {
    if |b.origin| > 1 {
      SetSucceedsIff(tree, 1, b, cmp);
    }
  }

  /** Below a loaded root, all paths that neither lead to the origin nor through it stay, and the nodes on the way keep
      what is their own. */
  lemma {:induction false} BranchKeepsTheRest(tree: Node, b: Branch, path: seq<string>, upTo: nat, title: string,
                                              withFiles: bool, cmp: Compare)
    requires IsOrder(cmp) && WellFormed(tree, cmp) && Listing(b) && |b.origin| > 1 && BranchSet(tree, b, cmp).Some?
    requires !(path <= b.origin[1..]) && !(b.origin[1..] <= path) && 1 <= upTo < |b.origin|
    ensures Resolve(BranchSet(tree, b, cmp).value, path, withFiles) == Resolve(tree, path, withFiles)
    ensures var before, after := Resolve(tree, b.origin[1..upTo], false),
                                 Resolve(BranchSet(tree, b, cmp).value, b.origin[1..upTo], false);
      before.Some? && after.Some?
      && KeptOnTheWay(before.value, after.value, b.origin[upTo], upTo + 1 == |b.origin|, title, withFiles)
  {
    OtherPathsKept(tree, 1, b, path, withFiles, cmp);
    AncestorsKept(tree, 1, b, upTo, title, withFiles, cmp);
  }

  /** What the nodes are that a branch lists: their key is the origin with the title behind a slash, directories are no
      leaves, files are dimmed exactly if their name starts with a dot, and none is loaded. */
  lemma ListedNodes(node: Node, b: Branch, i: nat, cmp: Compare)
    requires i < |WithChildren(node, b, cmp).children.nodes|
    ensures var t := WithChildren(node, b, cmp); var child := t.children.nodes[i];
      && child.key == PathText(b.origin) + "/" + child.title && child.children == Unloaded && child.split == 0
      && (child.notLeaf <==> i < t.split)
      && (child.dimmed <==> i >= t.split && child.title != "" && child.title[0] == '.')
      && t == node.(children := t.children, split := t.split)
  {
  }

  /** The text of a path has a slash in front of each name. */
  lemma {:induction false} PathTextIs(a: seq<string>, b: seq<string>, name: string)
    ensures PathText([]) == "" && PathText([name]) == "/" + name
    ensures PathText(a + b) == PathText(a) + PathText(b)
    decreases |b|
  {
    assert [name][..0] == [] && "" + "/" == "/";
    if b == [] {
      assert a + b == a && PathText(a) + "" == PathText(a);
    } else {
      var front, last := b[..|b| - 1], b[|b| - 1];
      PathTextIs(a, front, name);
      assert (a + b)[..|a + b| - 1] == a + front;
      assert PathText(a) + PathText(front) + "/" + last == PathText(a) + (PathText(front) + "/" + last);
    }
  }

  /** A directory that was missing is inserted under its name. Its key is one slash and then the names above it without
      slashes between them; it is no marked directory and not loaded. */
  lemma InsertedNode(names: seq<string>, depth: nat)
    requires depth < |names|
    ensures var n := Inserted(names, depth);
      && n.title == names[depth] && n.key == "/" + Concatenated(names[..depth])
      && n.split == 0 && n.children == Unloaded && !n.notLeaf && !n.dimmed
  {
    RunTogetherIs(names[..depth]);
  }

  function Concatenated(names: seq<string>): string {
    if names == [] then "" else names[0] + Concatenated(names[1..])
  }

  lemma {:induction false} RunTogetherIs(names: seq<string>)
    ensures RunTogether(names) == "/" + Concatenated(names)
    decreases |names|
  {
    if names == [] {
      assert "/" + "" == "/";
    } else {
      var front, last := names[..|names| - 1], names[|names| - 1];
      RunTogetherIs(front);
      ConcatenatedSnoc(front, last);
      assert names == front + [last];
      assert "/" + Concatenated(front) + last == "/" + (Concatenated(front) + last);
    }
  }

  lemma {:induction false} ConcatenatedSnoc(front: seq<string>, last: string)
    ensures Concatenated(front + [last]) == Concatenated(front) + last
    decreases |front|
  {
    if front == [] {
      assert [last][1..] == [] && last + "" == last && "" + last == last;
      assert front + [last] == [last];
    } else {
      assert (front + [last])[1..] == front[1..] + [last];
      ConcatenatedSnoc(front[1..], last);
      assert front[0] + (Concatenated(front[1..]) + last) == front[0] + Concatenated(front[1..]) + last;
    }
  }

  /** The node at the origin keeps what is its own, or is the inserted one if there was none. */
  lemma {:induction false} OriginKeepsItself(node: Node, depth: nat, b: Branch, withFiles: bool, cmp: Compare)
    requires IsOrder(cmp) && depth < |b.origin| && WellFormed(node, cmp) && Listing(b)
    requires SetBranch(node, depth, b, cmp).Some?
    ensures var before := Resolve(node, b.origin[depth..], false);
      Resolve(SetBranch(node, depth, b, cmp).value, b.origin[depth..], withFiles)
      == Some(WithChildren(if before.Some? then before.value else Inserted(b.origin, |b.origin| - 1), b, cmp))
    decreases |b.origin| - depth
  {
    var name, present := b.origin[depth], Child(node, b.origin[depth], false);
    ChildAfterSet(node, depth, b, name, withFiles, cmp);
    var below := if present.Some? then present.value else Inserted(b.origin, depth);
    if depth + 1 < |b.origin| {
      if present == None {
        OnlyOriginMissing(node, depth, b, cmp);
      }
      OriginKeepsItself(below, depth + 1, b, withFiles, cmp);
      assert b.origin[depth..][1..] == b.origin[depth + 1..];
    } else {
      assert b.origin[depth..] == [name] && [name][1..] == [];
    }
  }

  // ---- findNodeAndDo and DELETE_WORKSPACE_ELEMENT -----------------------------------------------------------------

  /** One turn of the loop of findNodeAndDo: go on to a child, give up, or fail with a TypeError, which happens on a
      node that was never loaded and when a search reads past the end of the list. */
  datatype Turn = Go(index: nat) | Missing | Failure

  function FindStep(node: Node, name: string, includeFiles: bool, cmp: Compare): (turn: Turn)
    ensures turn.Go? ==> node.children.Loaded? && turn.index < |node.children.nodes|
  {
    if node.children == Unloaded then Failure
    else
      var titles := Titles(node.children.nodes);
      var dirs := Search(titles, node.split, name, false, cmp);
      var r := if includeFiles && dirs.Found? && !dirs.isMatch then Search(titles, node.split, name, true, cmp)
        else dirs;
      if r == Crash then Failure
      else if r.isMatch && r.index < |titles| then Go(r.index) else Missing
  }

  function Removed(stop: Stop): Node
    requires stop.node.children.Loaded? && stop.index < |stop.node.children.nodes|
  {
    var nodes := stop.node.children.nodes;
    stop.node.(children := Loaded(nodes[..stop.index] + nodes[stop.index + 1..]))
  }

  /** The subtree after the element at a path was deleted; unchanged when there is none, None on a TypeError. The split
      index stays as it is. */
  function DeleteIn(node: Node, names: seq<string>, cmp: Compare): Option<Node>
    requires names != []
    decreases |names|
  {
    match FindStep(node, names[0], true, cmp)
    case Missing => Some(node)
    case Failure => None
    case Go(index) =>
      if |names| == 1 then Some(Removed(Stop(node, index)))
      else
        match DeleteIn(node.children.nodes[index], names[1..], cmp)
        case None => None
        case Some(child) => Some(Replaced(Stop(node, index), child))
  }

  /** For the path of the root itself the index is still -1, and splice(-1, 1) drops the last child. */
  function Deleted(tree: Node, names: seq<string>, cmp: Compare): Option<Node> {
    if names != [] then DeleteIn(tree, names, cmp)
    else if tree.children == Unloaded then None
    else if tree.children.nodes == [] then Some(tree)
    else Some(Removed(Stop(tree, |tree.children.nodes| - 1)))
  }

  /** `names` is the path after its first name, which stands for the root. */
  method DeleteWorkspaceElement(tree: Node, names: seq<string>, cmp: Compare) returns (res: Option<Node>)
    requires IsOrder(cmp)
    ensures res == Deleted(tree, names, cmp)
  {
    var curNode := tree;
    var way: seq<Stop> := [];
    for depth := 0 to |names|
      invariant WayOk(way) && (depth == 0 <==> way == [])
      invariant depth < |names| ==> Deleted(tree, names, cmp) == Plugged(way, DeleteIn(curNode, names[depth..], cmp))
      invariant depth == |names| > 0 ==>
        Deleted(tree, names, cmp) == Some(Plug(way[..|way| - 1], Removed(way[|way| - 1])))
      invariant depth == 0 ==> curNode == tree
    {
      if curNode.children == Unloaded {
        return None;
      }
      var titles := Titles(curNode.children.nodes);
      var searchResult := BinaryChildSearch(titles, curNode.split, names[depth], false, cmp);
      if searchResult.Found? && !searchResult.isMatch {
        searchResult := BinaryChildSearch(titles, curNode.split, names[depth], true, cmp);
      }
      if searchResult == Crash {
        return None;
      }
      if !searchResult.isMatch || searchResult.index >= |titles| {
        return Some(Plug(way, curNode));
      }
      var stop := Stop(curNode, searchResult.index);
      curNode := curNode.children.nodes[searchResult.index];
      assert names[depth..][1..] == names[depth + 1..];
      if depth + 1 < |names| {
        PlugOne(way, stop, DeleteIn(curNode, names[depth + 1..], cmp));
      }
      assert (way + [stop])[..|way|] == way;
      way := way + [stop];
    }
    if way == [] {
      if tree.children == Unloaded {
        return None;
      }
      return Some(if tree.children.nodes == [] then tree else Removed(Stop(tree, |tree.children.nodes| - 1)));
    }
    return Some(Plug(way[..|way| - 1], Removed(way[|way| - 1])));
  }

  /** In a well-formed node a turn of the loop goes where plain lookup goes. */
  lemma FindStepIsChild(node: Node, name: string, includeFiles: bool, cmp: Compare)
    requires IsOrder(cmp) && WellFormed(node, cmp)
    ensures var turn := FindStep(node, name, includeFiles, cmp);
      Child(node, name, includeFiles) == if turn.Go? then Some(node.children.nodes[turn.index]) else None
    ensures var turn := FindStep(node, name, includeFiles, cmp);
      turn.Go? ==> (turn.index < node.split <==> Child(node, name, false).Some?)
  {
    if node.children.Loaded? {
      SearchIsChild(node, name, cmp);
      if includeFiles && Child(node, name, false) == None {
        FileSearchIsChild(node, name, cmp);
      }
    }
  }

  lemma SegmentsAscend(node: Node, cmp: Compare)
    requires WellFormed(node, cmp) && node.children.Loaded?
    ensures var nodes, split := node.children.nodes, node.split;
      && split <= |nodes|
      && Titles(nodes[..split]) == Titles(nodes)[..split] && Ascending(Titles(nodes[..split]), cmp)
      && Titles(nodes[split..]) == Titles(nodes)[split..] && Ascending(Titles(nodes[split..]), cmp)
  {
    assert Titles(node.children.nodes[..node.split]) == Titles(node.children.nodes)[..node.split];
    assert Titles(node.children.nodes[node.split..]) == Titles(node.children.nodes)[node.split..];
  }

  lemma FileSearchIsChild(node: Node, name: string, cmp: Compare)
    requires IsOrder(cmp) && WellFormed(node, cmp) && node.children.Loaded?
    ensures var nodes, r := node.children.nodes, Search(Titles(node.children.nodes), node.split, name, true, cmp);
      var file := Titled(nodes[node.split..], name);
      if r.Found? && r.isMatch && r.index < |nodes| then node.split <= r.index && file == Some(nodes[r.index])
        else file == None
  {
    SegmentsAscend(node, cmp);
    if node.split < |node.children.nodes| {
      FileSearchFinds(node.children.nodes, node.split, name, cmp);
    } else {
      assert node.children.nodes[node.split..] == [];
    }
  }

  lemma FileSearchFinds(nodes: seq<Node>, split: nat, name: string, cmp: Compare)
    requires IsOrder(cmp) && split < |nodes|
    requires Titles(nodes[split..]) == Titles(nodes)[split..] && Ascending(Titles(nodes[split..]), cmp)
    ensures var r, file := Search(Titles(nodes), split, name, true, cmp), Titled(nodes[split..], name);
      && r.Found? && (r.isMatch ==> split <= r.index < |nodes|)
      && file == if r.isMatch then Some(nodes[r.index]) else None
  {
    var r := Search(Titles(nodes), split, name, true, cmp);
    TitledIffIn(nodes[split..], name);
    SearchFinds(Titles(nodes), split, name, true, cmp);
    if r.isMatch {
      TitledBehind(nodes, split, r.index, cmp);
    }
  }

  lemma TitledBehind(nodes: seq<Node>, split: nat, i: nat, cmp: Compare)
    requires IsOrder(cmp) && split <= i < |nodes| && Ascending(Titles(nodes[split..]), cmp)
    ensures Titled(nodes[split..], nodes[i].title) == Some(nodes[i])
  {
    assert nodes[split..][i - split] == nodes[i];
    TitledAt(nodes[split..], i - split, cmp);
  }

  /** The path leads through directories to a file that no directory of the same name hides. */
  predicate IsFileAt(node: Node, names: seq<string>)
    requires names != []
  {
    var parent := Resolve(node, names[..|names| - 1], false);
    && parent.Some?
    && Child(parent.value, names[|names| - 1], false) == None && Child(parent.value, names[|names| - 1], true).Some?
  }

  lemma AscendingWithout(titles: seq<string>, k: nat, cmp: Compare)
    requires Ascending(titles, cmp) && k < |titles|
    ensures Ascending(titles[..k] + titles[k + 1..], cmp)
  {
    assert forall j :: 0 <= j < |titles| - 1 ==>
      (titles[..k] + titles[k + 1..])[j] == if j < k then titles[j] else titles[j + 1];
  }

  lemma AscendingSnoc(titles: seq<string>, title: string, cmp: Compare)
    requires Ascending(titles, cmp)
    ensures Ascending(titles + [title], cmp) <==> AllBelow(titles, title, cmp)
  {
    assert (titles + [title])[|titles|] == title;
    assert forall i :: 0 <= i < |titles| ==> (titles + [title])[i] == titles[i];
  }

  lemma TitlesWithout(nodes: seq<Node>, i: nat)
    requires i < |nodes|
    ensures Titles(nodes[..i] + nodes[i + 1..]) == Titles(nodes)[..i] + Titles(nodes)[i + 1..]
  {
  }

  lemma WithoutBehind<T>(s: seq<T>, split: nat, i: nat)
    requires split <= i < |s|
    ensures var left, back := s[..i] + s[i + 1..], s[split..];
      && left[..split] == s[..split] && left[split..] == back[..i - split] + back[i - split + 1..]
      && back == back[..i - split] + [s[i]] + back[i - split + 1..]
  {
  }

  lemma WithoutBefore<T>(s: seq<T>, split: nat, i: nat)
    requires i < split < |s|
    ensures var left, front := s[..i] + s[i + 1..], s[..split];
      left[..split] == (front[..i] + front[i + 1..]) + [s[split]] && left[split..] == s[split + 1..]
  {
  }

  /** Taking one file out of a node keeps it well formed. */
  lemma FileRemovedWellFormed(stop: Stop, cmp: Compare)
    requires WellFormed(stop.node, cmp) && stop.node.children.Loaded?
    requires stop.node.split <= stop.index < |stop.node.children.nodes|
    ensures WellFormed(Removed(stop), cmp)
  {
    var nodes, i := stop.node.children.nodes, stop.index;
    TitlesWithout(nodes, i);
    SortedWithoutFile(Titles(nodes), stop.node.split, i, cmp);
    SmallerPart(nodes, nodes[..i] + nodes[i + 1..], cmp);
  }

  lemma SortedWithoutFile(titles: seq<string>, split: nat, i: nat, cmp: Compare)
    requires split <= i < |titles| && Ascending(titles[..split], cmp) && Ascending(titles[split..], cmp)
    ensures var left := titles[..i] + titles[i + 1..];
      Ascending(left[..split], cmp) && Ascending(left[split..], cmp)
  {
    WithoutBehind(titles, split, i);
    AscendingWithout(titles[split..], i - split, cmp);
  }

  /** No directory and no other file has the title of the child at the index. */
  predicate OnlyFile(stop: Stop) {
    && stop.node.children.Loaded? && stop.node.split <= stop.index < |stop.node.children.nodes|
    && var nodes, split, i := stop.node.children.nodes, stop.node.split, stop.index;
       && Titled(nodes[..split], nodes[i].title) == None
       && Titled(nodes[split..][..i - split], nodes[i].title) == None
       && Titled(nodes[split..][i - split + 1..], nodes[i].title) == None
  }

  lemma SortedFileIsOnly(stop: Stop, cmp: Compare)
    requires IsOrder(cmp) && WellFormed(stop.node, cmp) && stop.node.children.Loaded?
    requires stop.node.split <= stop.index < |stop.node.children.nodes|
    requires Child(stop.node, stop.node.children.nodes[stop.index].title, false) == None
    ensures OnlyFile(stop)
  {
    SegmentsAscend(stop.node, cmp);
    var files, i := stop.node.children.nodes[stop.node.split..], stop.index - stop.node.split;
    assert files[i] == stop.node.children.nodes[stop.index];
    NotBeside(files, i, cmp);
  }

  /** The file's name then means nothing, and every other name what it meant before. */
  lemma FileRemovedChild(stop: Stop, title: string, withFiles: bool)
    requires OnlyFile(stop)
    ensures Child(Removed(stop), title, withFiles) ==
      if title == stop.node.children.nodes[stop.index].title then None else Child(stop.node, title, withFiles)
  {
    FileRemovedAmong(stop.node.children.nodes, stop.node.split, stop.index, title, withFiles);
  }

  lemma FileRemovedAmong(nodes: seq<Node>, split: nat, i: nat, title: string, withFiles: bool)
    requires split <= i < |nodes|
    requires Titled(nodes[..split], nodes[i].title) == None
    requires Titled(nodes[split..][..i - split], nodes[i].title) == None
    requires Titled(nodes[split..][i - split + 1..], nodes[i].title) == None
    ensures var left := nodes[..i] + nodes[i + 1..];
      ChildAmong(left[..split], left[split..], title, withFiles) ==
        if title == nodes[i].title then None else ChildAmong(nodes[..split], nodes[split..], title, withFiles)
  {
    var files, j := nodes[split..], i - split;
    WithoutBehind(nodes, split, i);
    ChildWithout(nodes[..split], files[..j], nodes[i], files[j + 1..], title, withFiles);
  }

  lemma ChildWithout(dirs: seq<Node>, a: seq<Node>, c: Node, b: seq<Node>, title: string, withFiles: bool)
    requires Titled(dirs, c.title) == None && Titled(a, c.title) == None && Titled(b, c.title) == None
    ensures ChildAmong(dirs, a + b, title, withFiles)
         == if title == c.title then None else ChildAmong(dirs, a + [c] + b, title, withFiles)
  {
    TitledAround(a, c, b, title);
    TitledAppend(a, b, title);
  }

  lemma NotBeside(nodes: seq<Node>, i: nat, cmp: Compare)
    requires IsOrder(cmp) && Ascending(Titles(nodes), cmp) && i < |nodes|
    ensures Titled(nodes[..i], nodes[i].title) == None && Titled(nodes[i + 1..], nodes[i].title) == None
  {
    TitledIffIn(nodes[..i], nodes[i].title);
    TitledIffIn(nodes[i + 1..], nodes[i].title);
  }

  /** What DeletingFile says, for one node and one other path. */
  ghost predicate FileGone(node: Node, node': Node, names: seq<string>, path: seq<string>, withFiles: bool,
                           cmp: Compare) {
    && WellFormed(node', cmp) && node'.title == node.title && Resolve(node', names, true) == None
    && (!(path <= names) && !(names <= path) ==> Resolve(node', path, withFiles) == Resolve(node, path, withFiles))
  }

  lemma FileGoneHere(node: Node, index: nat, name: string, path: seq<string>, withFiles: bool, cmp: Compare)
    requires IsOrder(cmp) && WellFormed(node, cmp) && node.children.Loaded?
      && node.split <= index < |node.children.nodes|
    requires node.children.nodes[index].title == name && Child(node, name, false) == None
    ensures FileGone(node, Removed(Stop(node, index)), [name], path, withFiles, cmp)
  {
    var stop := Stop(node, index);
    FileRemovedWellFormed(stop, cmp);
    SortedFileIsOnly(stop, cmp);
    FileRemovedChild(stop, name, true);
    if path != [] {
      FileRemovedChild(stop, path[0], withFiles);
      assert path[0] == name ==> [name] <= path;
    }
  }

  lemma FileGoneBelow(node: Node, index: nat, child': Node, names: seq<string>, path: seq<string>,
                      withFiles: bool, cmp: Compare)
    requires IsOrder(cmp) && WellFormed(node, cmp) && node.children.Loaded? && index < node.split
    requires |names| > 1 && node.children.nodes[index].title == names[0]
    requires forall wf :: Child(node, names[0], wf) == Some(node.children.nodes[index])
    requires FileGone(node.children.nodes[index], child', names[1..], if path == [] then [] else path[1..],
                      withFiles, cmp)
    ensures FileGone(node, Replaced(Stop(node, index), child'), names, path, withFiles, cmp)
  {
    var stop := Stop(node, index);
    ReplacedWellFormed(stop, child', cmp);
    ReplacedChild(stop, child', names[0], true, cmp);
    if path != [] {
      ReplacedChild(stop, child', path[0], withFiles, cmp);
      if path[0] == names[0] {
        assert path[1..] <= names[1..] ==> path <= names;
        assert names[1..] <= path[1..] ==> names <= path;
      }
    }
  }

  /** Deleting a file keeps the tree well formed, makes its path lead nowhere and leaves all other paths alone. */
  lemma {:induction false} DeletingFile(node: Node, names: seq<string>, path: seq<string>, withFiles: bool,
                                        cmp: Compare)
    requires IsOrder(cmp) && WellFormed(node, cmp) && names != [] && IsFileAt(node, names)
    ensures DeleteIn(node, names, cmp).Some?
    ensures FileGone(node, DeleteIn(node, names, cmp).value, names, path, withFiles, cmp)
    decreases |names|
  {
    FindStepIsChild(node, names[0], true, cmp);
    if |names| == 1 {
      FileAtTop(node, names);
      var index := FindStep(node, names[0], true, cmp).index;
      FileGoneHere(node, index, names[0], path, withFiles, cmp);
      assert names == [names[0]];
    } else {
      FileAtBelow(node, names);
      var index := FindStep(node, names[0], true, cmp).index;
      var child := node.children.nodes[index];
      DeletingFile(child, names[1..], if path == [] then [] else path[1..], withFiles, cmp);
      FileGoneBelow(node, index, DeleteIn(child, names[1..], cmp).value, names, path, withFiles, cmp);
    }
  }

  lemma ChildHasTitle(node: Node, title: string, withFiles: bool)
    ensures Child(node, title, withFiles).Some? ==>
      node.children.Loaded? && node.split <= |node.children.nodes| && Child(node, title, withFiles).value.title == title
  {
    if node.children.Loaded? && node.split <= |node.children.nodes| {
      TitledIffIn(node.children.nodes[..node.split], title);
      TitledIffIn(node.children.nodes[node.split..], title);
    }
  }

  lemma FileAtTop(node: Node, names: seq<string>)
    requires |names| == 1 && IsFileAt(node, names)
    ensures Child(node, names[0], false) == None && Child(node, names[0], true).Some?
    ensures Child(node, names[0], true).value.title == names[0]
  {
    assert names[..0] == [];
    ChildHasTitle(node, names[0], true);
  }

  lemma FileAtBelow(node: Node, names: seq<string>)
    requires |names| > 1 && IsFileAt(node, names)
    ensures Child(node, names[0], false).Some? && Child(node, names[0], false).value.title == names[0]
    ensures Child(node, names[0], true) == Child(node, names[0], false)
    ensures IsFileAt(Child(node, names[0], false).value, names[1..])
  {
    assert names[..|names| - 1][1..] == names[1..][..|names| - 2];
    ChildHasTitle(node, names[0], false);
  }

  /** Deleting a directory leaves the split index where it was, so the first file slides into the directory segment. The
      node stays well formed exactly if there is such a file and it happens to sort behind the remaining directories. */
  lemma DeletingDirectoryIff(stop: Stop, cmp: Compare)
    requires WellFormed(stop.node, cmp) && stop.node.children.Loaded? && stop.index < stop.node.split
    ensures var nodes, split := stop.node.children.nodes, stop.node.split;
      var dirs := Titles(nodes)[..split];
      WellFormed(Removed(stop), cmp) <==>
        split < |nodes| && AllBelow(dirs[..stop.index] + dirs[stop.index + 1..], nodes[split].title, cmp)
  {
    var nodes, split, k := stop.node.children.nodes, stop.node.split, stop.index;
    if split < |nodes| {
      TitlesWithout(nodes, k);
      SortedWithout(Titles(nodes), split, k, cmp);
      SmallerPart(nodes, nodes[..k] + nodes[k + 1..], cmp);
    }
  }

  /** What is left of the two segments when a title is taken out of the first without moving the boundary. */
  lemma SortedWithout(titles: seq<string>, split: nat, k: nat, cmp: Compare)
    requires k < split < |titles| && Ascending(titles[..split], cmp) && Ascending(titles[split..], cmp)
    ensures var left, dirs := titles[..k] + titles[k + 1..], titles[..split];
      && Ascending(left[split..], cmp)
      && (Ascending(left[..split], cmp) <==> AllBelow(dirs[..k] + dirs[k + 1..], titles[split], cmp))
  {
    WithoutBefore(titles, split, k);
    AscendingWithout(titles[..split], k, cmp);
    AscendingSnoc(titles[..split][..k] + titles[..split][k + 1..], titles[split], cmp);
    assert titles[split + 1..] == titles[split..][1..];
  }

  /** There is a file, and the first one sorts behind all directories but the one named. */
  ghost predicate FirstFileSortsBehind(parent: Node, name: string, cmp: Compare) {
    && parent.children.Loaded?
    && var titles, split := Titles(parent.children.nodes), parent.split;
       split < |titles| && OthersBelow(titles[..split], name, titles[split], cmp)
  }

  ghost predicate OthersBelow(titles: seq<string>, name: string, bound: string, cmp: Compare) {
    forall title :: title in titles && title != name ==> cmp(title, bound) < 0
  }

  /** What DeletingDirectory says: `after` is well formed exactly if, in the directory that held the deleted one,
      there is a file and the first one sorts behind the remaining directories. */
  ghost predicate DirectoryGone(node: Node, after: Option<Node>, names: seq<string>, cmp: Compare)
    requires names != []
  {
    var parent := Resolve(node, names[..|names| - 1], false);
    && after.Some? && after.value.title == node.title && parent.Some?
    && (WellFormed(after.value, cmp) <==> FirstFileSortsBehind(parent.value, names[|names| - 1], cmp))
  }

  /** Deleting a directory anywhere in the tree. */
  lemma {:induction false} DeletingDirectory(node: Node, names: seq<string>, cmp: Compare)
    requires IsOrder(cmp) && WellFormed(node, cmp) && names != [] && Resolve(node, names, false).Some?
    ensures DirectoryGone(node, DeleteIn(node, names, cmp), names, cmp)
    decreases |names|
  {
    var stop := DirectoryStep(node, names[0], cmp);
    if |names| == 1 {
      DeletingHere(stop, names, cmp);
    } else {
      DeletingDirectory(stop.node.children.nodes[stop.index], names[1..], cmp);
      DeletingBelow(stop, names, cmp);
    }
  }

  lemma DeletingHere(stop: Stop, names: seq<string>, cmp: Compare)
    requires IsOrder(cmp) && WellFormed(stop.node, cmp) && stop.node.children.Loaded? && stop.index < stop.node.split
    requires |names| == 1 && FindStep(stop.node, names[0], true, cmp) == Go(stop.index)
    requires stop.node.children.nodes[stop.index].title == names[0]
    ensures DirectoryGone(stop.node, DeleteIn(stop.node, names, cmp), names, cmp)
  {
    assert names[..0] == [];
    DeletingItsDirectory(stop, cmp);
  }

  lemma DeletingBelow(stop: Stop, names: seq<string>, cmp: Compare)
    requires WellFormed(stop.node, cmp) && stop.node.children.Loaded? && stop.index < |stop.node.children.nodes|
    requires |names| > 1 && FindStep(stop.node, names[0], true, cmp) == Go(stop.index)
    requires var child := stop.node.children.nodes[stop.index];
      Child(stop.node, names[0], false) == Some(child)
      && DirectoryGone(child, DeleteIn(child, names[1..], cmp), names[1..], cmp)
    ensures DirectoryGone(stop.node, DeleteIn(stop.node, names, cmp), names, cmp)
  {
    ParentBelow(stop.node, names);
    ReplacedWellFormed(stop, DeleteIn(stop.node.children.nodes[stop.index], names[1..], cmp).value, cmp);
  }

  lemma ParentBelow(node: Node, names: seq<string>)
    requires |names| > 1 && Child(node, names[0], false).Some?
    ensures Resolve(node, names[..|names| - 1], false)
         == Resolve(Child(node, names[0], false).value, names[1..][..|names| - 2], false)
    ensures names[1..][|names| - 2] == names[|names| - 1]
  {
    assert names[1..][..|names| - 2] == names[..|names| - 1][1..];
  }

  lemma DirectoryStep(node: Node, name: string, cmp: Compare) returns (stop: Stop)
    requires IsOrder(cmp) && WellFormed(node, cmp) && Child(node, name, false).Some?
    ensures stop.node == node && node.children.Loaded? && stop.index < node.split <= |node.children.nodes|
    ensures FindStep(node, name, true, cmp) == Go(stop.index)
    ensures Child(node, name, false) == Some(node.children.nodes[stop.index])
    ensures node.children.nodes[stop.index].title == name
  {
    FindStepIsChild(node, name, true, cmp);
    ChildHasTitle(node, name, false);
    stop := Stop(node, FindStep(node, name, true, cmp).index);
  }

  lemma DeletingItsDirectory(stop: Stop, cmp: Compare)
    requires IsOrder(cmp) && WellFormed(stop.node, cmp) && stop.node.children.Loaded? && stop.index < stop.node.split
    ensures WellFormed(Removed(stop), cmp) <==>
      FirstFileSortsBehind(stop.node, stop.node.children.nodes[stop.index].title, cmp)
  {
    DeletingDirectoryIff(stop, cmp);
    SegmentsAscend(stop.node, cmp);
    OthersBelowRest(Titles(stop.node.children.nodes), stop.node.split, stop.index, cmp);
  }

  lemma OthersBelowRest(titles: seq<string>, split: nat, k: nat, cmp: Compare)
    requires IsOrder(cmp) && k < split <= |titles| && Ascending(titles[..split], cmp)
    ensures var dirs := titles[..split];
      split < |titles| ==>
        (AllBelow(dirs[..k] + dirs[k + 1..], titles[split], cmp) <==> OthersBelow(dirs, titles[k], titles[split], cmp))
  {
    var dirs := titles[..split];
    assert dirs == dirs[..k] + [dirs[k]] + dirs[k + 1..];
    if split < |titles| {
      OthersAreTheRest(dirs[..k], dirs[k], dirs[k + 1..], titles[split], cmp);
    }
  }

  lemma OthersAreTheRest(a: seq<string>, x: string, b: seq<string>, bound: string, cmp: Compare)
    requires IsOrder(cmp) && Ascending(a + [x] + b, cmp)
    ensures AllBelow(a + b, bound, cmp) <==> OthersBelow(a + [x] + b, x, bound, cmp)
  {
    var all := a + [x] + b;
    assert all[|a|] == x;
    assert x !in a by {
      assert forall i :: 0 <= i < |a| ==> all[i] == a[i];
    }
    assert x !in b by {
      assert forall i :: 0 <= i < |b| ==> all[|a| + 1 + i] == b[i];
    }
  }

  /** All the titles are below the bound. */
  ghost predicate AllBelow(titles: seq<string>, bound: string, cmp: Compare) {
    forall title :: title in titles ==> cmp(title, bound) < 0
  }

  lemma SmallerPart(nodes: seq<Node>, part: seq<Node>, cmp: Compare)
    requires forall i :: 0 <= i < |nodes| ==> WellFormed(nodes[i], cmp)
    requires forall i :: 0 <= i < |part| ==> part[i] in nodes
    ensures forall i :: 0 <= i < |part| ==> WellFormed(part[i], cmp)
  {
  }

  // ---- Paths that lead nowhere ------------------------------------------------------------------------------------

  /** The node at which the lookup of a path stops, because it is at the end or there is no such child. */
  function Reached(node: Node, names: seq<string>): Node
    decreases |names|
  {
    if names == [] then node
    else
      match Child(node, names[0], true)
      case None => node
      case Some(child) => Reached(child, names[1..])
  }

  /** Searching directories and then files does not fail on it. */
  predicate Searchable(node: Node) {
    node.children.Loaded? && (node.children.nodes == [] || node.split < |node.children.nodes|)
  }

  lemma MissingChild(node: Node, name: string, cmp: Compare)
    requires IsOrder(cmp) && WellFormed(node, cmp) && Child(node, name, true) == None
    ensures FindStep(node, name, true, cmp) == if Searchable(node) then Missing else Failure
  {
    FindStepIsChild(node, name, true, cmp);
    if node.children.Loaded? {
      FileSearchCrashesIff(Titles(node.children.nodes), node.split, name, cmp);
      FindStepIsChild(node, name, false, cmp);
    }
  }

  /** Deleting at a path succeeds if there is something. If there is nothing, it leaves the tree as it is exactly if the
      node at which the path ends is loaded and has a file or no children at all; else it fails. */
  lemma {:induction false} DeletingAnything(node: Node, names: seq<string>, cmp: Compare)
    requires IsOrder(cmp) && WellFormed(node, cmp) && names != []
    ensures Resolve(node, names, true).Some? ==> DeleteIn(node, names, cmp).Some?
    ensures Resolve(node, names, true) == None ==>
      DeleteIn(node, names, cmp) == if Searchable(Reached(node, names)) then Some(node) else None
    decreases |names|
  {
    FindStepIsChild(node, names[0], true, cmp);
    if Child(node, names[0], true) == None {
      MissingChild(node, names[0], cmp);
    } else if |names| > 1 {
      var stop := Stop(node, FindStep(node, names[0], true, cmp).index);
      DeletingAnything(node.children.nodes[stop.index], names[1..], cmp);
      ReplacedByItself(stop);
    } else {
      var child := Child(node, names[0], true).value;
      assert names[1..] == [] && Resolve(child, names[1..], true) == Some(child);
    }
  }

  lemma ReplacedByItself(stop: Stop)
    requires stop.node.children.Loaded? && stop.index < |stop.node.children.nodes|
    ensures Replaced(stop, stop.node.children.nodes[stop.index]) == stop.node
  {
    var nodes := stop.node.children.nodes;
    assert nodes[stop.index := nodes[stop.index]] == nodes;
  }

  /** Deleting the only child of a node, a directory, leaves a split index behind the list. A directory is still
      inserted there, but then every search in the node fails. */
  lemma OnlyDirectoryDeleted(node: Node, depth: nat, b: Branch, cmp: Compare)
    requires IsOrder(cmp) && node.children.Loaded? && |node.children.nodes| == node.split == 1 && depth < |b.origin|
    ensures var inserted := Descend(Removed(Stop(node, 0)), depth, b, cmp);
      && inserted.Some?
      && (forall name, withFiles :: FindStep(inserted.value.node, name, withFiles, cmp) == Failure)
      && (forall d, branch: Branch :: 0 <= d < |branch.origin| ==> Descend(inserted.value.node, d, branch, cmp) == None)
  {
    var after := Removed(Stop(node, 0));
    assert after.children.nodes == [];
    assert Descend(after, depth, b, cmp).value.node.children.nodes == [Inserted(b.origin, depth)];
  }

  // ---- The whole deletion -----------------------------------------------------------------------------------------

  /** What deleting at a path below the root does to the tree, by what there is at the path. */
  lemma {:induction false} DeletingBelowRoot(tree: Node, names: seq<string>, path: seq<string>, withFiles: bool,
                                             cmp: Compare)
    requires IsOrder(cmp) && WellFormed(tree, cmp) && names != []
    ensures IsFileAt(tree, names) ==>
      Deleted(tree, names, cmp).Some? && FileGone(tree, Deleted(tree, names, cmp).value, names, path, withFiles, cmp)
    ensures Resolve(tree, names, false).Some? ==> DirectoryGone(tree, Deleted(tree, names, cmp), names, cmp)
    ensures Resolve(tree, names, true) == None ==>
      Deleted(tree, names, cmp) == if Searchable(Reached(tree, names)) then Some(tree) else None
  {
    DeletingAnything(tree, names, cmp);
    if IsFileAt(tree, names) {
      DeletingFile(tree, names, path, withFiles, cmp);
    }
    if Resolve(tree, names, false).Some? {
      DeletingDirectory(tree, names, cmp);
    }
  }

  /** Deleting the root's own path drops its last child instead, if it has one, and fails if it was never loaded. */
  lemma DeletingRoot(tree: Node, cmp: Compare)
    ensures Deleted(tree, [], cmp) == None <==> tree.children == Unloaded
    ensures tree.children.Loaded? ==>
      var nodes, after := tree.children.nodes, Deleted(tree, [], cmp).value;
      && after == tree.(children := after.children) && after.children.Loaded?
      && (nodes == [] ==> after == tree)
      && (nodes != [] ==> nodes == after.children.nodes + [nodes[|nodes| - 1]])
  {
    if tree.children.Loaded? && tree.children.nodes != [] {
      var nodes := tree.children.nodes;
      assert nodes[..|nodes| - 1] + nodes[|nodes| - 1 + 1..] == nodes[..|nodes| - 1];
    }
  }
}
