/** Searching one segment of a node's children (app/src/reducers/helpers/file_tree_searcher.js): directories in front of
    the split index, files behind it, each segment sorted by title.
 */
module ChildSearch {

  /** What localeCompare returns. */
  type Compare = (string, string) -> int

  /** A total order whose equality is equality of strings. */
  ghost predicate IsOrder(cmp: Compare) {
    && (forall a, b :: cmp(a, b) == 0 <==> a == b)
    && (forall a, b :: cmp(a, b) < 0 <==> cmp(b, a) > 0)
    && (forall a, b, c {:trigger InRow(cmp, a, b, c)} :: InRow(cmp, a, b, c) ==> cmp(a, c) < 0)
  }

  predicate InRow(cmp: Compare, a: string, b: string, c: string) {
    cmp(a, b) < 0 && cmp(b, c) < 0
  }

  /** `Crash` is the TypeError of reading the title of a child that is not there. */
  datatype Result = Found(index: nat, isMatch: bool) | Crash

  /** The bisection loop, from its guard on, for the segment from `start` to `end`, which may lie beyond the titles. */
  function Bisect(titles: seq<string>, what: string, start: nat, end: nat, cmp: Compare): (r: Result)
    ensures r.Found? ==> r.index <= |titles| && (r.isMatch ==> r.index < |titles|)
    decreases if start < end then end - start else 0
  {
    if end - start > 1 then
      var pivot := (end + start) / 2;
      if pivot >= |titles| then Crash
      else
        var compared := cmp(what, titles[pivot]);
        if compared == 0 then Found(pivot, true)
        else if compared < 0 then Bisect(titles, what, start, pivot, cmp)
        else Bisect(titles, what, pivot, end, cmp)
    else if start >= |titles| then Crash
    else if start == end then Found(start, titles[start] == what)
    else
      var compared := cmp(what, titles[start]);
      Found(if compared <= 0 then start else end, compared == 0)
  }

  function Search(titles: seq<string>, split: nat, what: string, searchFiles: bool, cmp: Compare): (r: Result)
    ensures r.Found? ==> r.index <= |titles| && (r.isMatch && cmp(what, what) == 0 ==> r.index < |titles|)
  {
    if titles == [] then Found(0, false)
    else if searchFiles then Bisect(titles, what, split, |titles|, cmp)
    else if split == 0 then Found(0, false)
    else if split == 1 then Found(if cmp(titles[0], what) < 0 then 1 else 0, titles[0] == what)
    else Bisect(titles, what, 0, split, cmp)
  }

  method BinaryChildSearch(titles: seq<string>, split: nat, what: string, searchFiles: bool, cmp: Compare)
      returns (result: Result)
    ensures result == Search(titles, split, what, searchFiles, cmp)
  {
    if |titles| == 0 {
      return Found(0, false);
    }
    var start, end := 0, split;
    if searchFiles {
      start, end := split, |titles|;
    } else {
      if end == 0 {
        return Found(0, false);
      }
      if end == 1 {
        return Found(if cmp(titles[0], what) < 0 then 1 else 0, titles[0] == what);
      }
    }
    var pivot := (end + start) / 2;
    while end - start > 1
      invariant 0 <= start && 0 <= end && pivot == (end + start) / 2
      invariant Bisect(titles, what, start, end, cmp) == Search(titles, split, what, searchFiles, cmp)
      decreases end - start
    {
      if pivot >= |titles| {
        return Crash;
      }
      var inList := titles[pivot];
      var lexicallyCompared := cmp(what, inList);
      if lexicallyCompared == 0 {
        return Found(pivot, true);
      }
      if lexicallyCompared < 0 {
        end := pivot;
        pivot := (pivot + start) / 2;
      } else {
        start := pivot;
        pivot := (end + pivot) / 2;
      }
    }
    if start == end {
      if pivot >= |titles| {
        return Crash;
      }
      return Found(start, titles[pivot] == what);
    } else {
      if start >= |titles| {
        return Crash;
      }
      var lexicallyCompared := cmp(what, titles[start]);
      if lexicallyCompared == 0 {
        return Found(start, true);
      }
      if lexicallyCompared < 0 {
        return Found(start, false);
      } else {
        return Found(end, false);
      }
    }
  }

  // ---- What it finds --------------------------------------------------------------------------------------------

  ghost predicate Ascending(titles: seq<string>, cmp: Compare) {
    forall i, j :: 0 <= i < j < |titles| ==> cmp(titles[i], titles[j]) < 0
  }

  /** `index` is where `what` is, or else between the lesser and the greater titles. */
  ghost predicate Places(titles: seq<string>, what: string, start: nat, end: nat, r: Result, cmp: Compare)
    requires end <= |titles|
  {
    && r.Found? && start <= r.index <= end
    && if r.isMatch then r.index < end && titles[r.index] == what
       else
         && (forall i :: start <= i < r.index ==> cmp(titles[i], what) < 0)
         && (forall i :: r.index <= i < end ==> cmp(what, titles[i]) < 0)
  }

  lemma {:induction false} BisectFinds(titles: seq<string>, what: string, start: nat, end: nat, cmp: Compare)
    requires IsOrder(cmp) && start < end <= |titles|
    requires forall i, j :: start <= i < j < end ==> cmp(titles[i], titles[j]) < 0
    ensures Places(titles, what, start, end, Bisect(titles, what, start, end, cmp), cmp)
    decreases end - start
  {
    if end - start > 1 {
      var pivot := (end + start) / 2;
      var compared := cmp(what, titles[pivot]);
      if compared < 0 {
        BisectFinds(titles, what, start, pivot, cmp);
        forall i | pivot < i < end
          ensures cmp(what, titles[i]) < 0
        {
          assert InRow(cmp, what, titles[pivot], titles[i]);
        }
      } else if compared > 0 {
        BisectFinds(titles, what, pivot, end, cmp);
        forall i | start <= i < pivot
          ensures cmp(titles[i], what) < 0
        {
          assert InRow(cmp, titles[i], titles[pivot], what);
        }
      }
    }
  }

  function Segment(titles: seq<string>, split: nat, searchFiles: bool): seq<string>
    requires split <= |titles|
  {
    if searchFiles then titles[split..] else titles[..split]
  }

  function First(split: nat, searchFiles: bool): nat {
    if searchFiles then split else 0
  }

  lemma SearchPlaces(titles: seq<string>, split: nat, what: string, searchFiles: bool, cmp: Compare)
    requires IsOrder(cmp) && split <= |titles|
    requires searchFiles ==> split < |titles|
    requires Ascending(Segment(titles, split, searchFiles), cmp)
    ensures Places(titles, what, First(split, searchFiles), if searchFiles then |titles| else split,
                   Search(titles, split, what, searchFiles, cmp), cmp)
  {
    var segment, first := Segment(titles, split, searchFiles), First(split, searchFiles);
    var end := if searchFiles then |titles| else split;
    forall i, j | first <= i < j < end
      ensures cmp(titles[i], titles[j]) < 0
    {
      assert titles[i] == segment[i - first] && titles[j] == segment[j - first];
    }
    if searchFiles || split >= 2 {
      BisectFinds(titles, what, first, end, cmp);
    }
  }

  /** In a sorted segment, the search reports a match exactly when the title is there, and then where; otherwise it
      returns the one index at which inserting the title keeps the segment sorted. */
  lemma SearchFinds(titles: seq<string>, split: nat, what: string, searchFiles: bool, cmp: Compare)
    requires IsOrder(cmp) && split <= |titles|
    requires searchFiles ==> split < |titles|
    requires Ascending(Segment(titles, split, searchFiles), cmp)
    ensures var r, segment := Search(titles, split, what, searchFiles, cmp), Segment(titles, split, searchFiles);
      var first := First(split, searchFiles);
      && r.Found? && first <= r.index <= first + |segment|
      && (r.isMatch <==> what in segment)
      && (r.isMatch ==> r.index < first + |segment| && segment[r.index - first] == what)
      && (!r.isMatch ==> forall i :: 0 <= i <= |segment| ==>
            (Ascending(segment[..i] + [what] + segment[i..], cmp) <==> i == r.index - first))
  {
    var segment, first := Segment(titles, split, searchFiles), First(split, searchFiles);
    var r := Search(titles, split, what, searchFiles, cmp);
    SearchPlaces(titles, split, what, searchFiles, cmp);
    assert forall i :: 0 <= i < |segment| ==> segment[i] == titles[first + i];
    if r.isMatch {
      assert segment[r.index - first] == what;
    } else {
      InsertionPoint(segment, what, r.index - first, cmp);
    }
  }

  lemma InsertionPoint(segment: seq<string>, what: string, index: nat, cmp: Compare)
    requires IsOrder(cmp) && index <= |segment| && Ascending(segment, cmp)
    requires forall i :: 0 <= i < index ==> cmp(segment[i], what) < 0
    requires forall i :: index <= i < |segment| ==> cmp(what, segment[i]) < 0
    ensures what !in segment
    ensures forall i :: 0 <= i <= |segment| ==> (Ascending(segment[..i] + [what] + segment[i..], cmp) <==> i == index)
  {
    forall i | 0 <= i <= |segment|
      ensures Ascending(segment[..i] + [what] + segment[i..], cmp) <==> i == index
    {
      var inserted := segment[..i] + [what] + segment[i..];
      if i < index {
        assert inserted[i] == what && inserted[i + 1] == segment[i];
      } else if i > index {
        assert inserted[i] == what && inserted[index] == segment[index];
      }
    }
  }

  /** Searching the files of a node that has children but no files reads past the end. Searching the directories does
      not, as long as the split index is one of the list. */
  lemma FileSearchCrashesIff(titles: seq<string>, split: nat, what: string, cmp: Compare)
    ensures Search(titles, split, what, true, cmp) == Crash <==> titles != [] && split >= |titles|
    ensures split <= |titles| ==> Search(titles, split, what, false, cmp).Found?
  {
    if split < |titles| {
      BisectNeverCrashes(titles, what, split, |titles|, cmp);
    }
    if 2 <= split <= |titles| {
      BisectNeverCrashes(titles, what, 0, split, cmp);
    }
  }

  lemma {:induction false} BisectNeverCrashes(titles: seq<string>, what: string, start: nat, end: nat, cmp: Compare)
    requires start < end <= |titles|
    ensures Bisect(titles, what, start, end, cmp).Found?
    decreases end - start
  {
    if end - start > 1 {
      BisectNeverCrashes(titles, what, start, (end + start) / 2, cmp);
      BisectNeverCrashes(titles, what, (end + start) / 2, end, cmp);
    }
  }
}
