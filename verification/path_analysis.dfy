/** The path queries of the analysis layer.  Both take the list of paths
    the graph's breadth-first search produced from the source person
    (one path per reachable vertex, each starting at that person) and
    select from it; the search itself belongs to the graph class and is
    an input here. */
module PathAnalysis {
  import opened Results
  import opened People

  /** `Integer.MAX_VALUE`, the initial "shortest length so far". */
  const IntMaxValue: int := 0x7fff_ffff

  /** The loader's name index: `get(name)`, `null` for an unknown name. */
  function Lookup(names: map<string, Person>, name: string): Option<Person> {
    if name in names then Some(names[name]) else None
  }

  /** A path the shortest-path loop can select: it contains the target
      (a `null` target is on no path) and is shorter than the initial
      bound `Integer.MAX_VALUE`. */
  predicate Reaches(path: seq<Person>, target: Option<Person>) {
    target.Some? && target.value in path && |path| < IntMaxValue
  }

  /** Some path of the list reaches the target. */
  predicate SomePathReaches(paths: seq<seq<Person>>, target: Option<Person>) {
    exists t :: 0 <= t < |paths| && Reaches(paths[t], target)
  }

  /** Position `j` holds the first of the shortest paths reaching the
      target. */
  ghost predicate IsFirstShortest(paths: seq<seq<Person>>, target: Option<Person>, j: int) {
    && 0 <= j < |paths|
    && Reaches(paths[j], target)
    && (forall t :: 0 <= t < |paths| && Reaches(paths[t], target) ==> |paths[j]| <= |paths[t]|)
    && (forall t :: 0 <= t < j && Reaches(paths[t], target) ==> |paths[j]| < |paths[t]|)
  }

  /** The path `getShortestPath` reports: the first shortest path
      reaching the target, or, when none does, the first path of the
      list (the start person's own one-vertex path). */
  ghost predicate IsSelectedPath(paths: seq<seq<Person>>, target: Option<Person>, j: int) {
    if SomePathReaches(paths, target) then IsFirstShortest(paths, target, j)
    else j == 0 && 0 < |paths|
  }

  /** `getShortestPath(p1, p2)` over `paths`, the search result from p1.
      `getFirst()` throws on an empty list; otherwise the first path is
      the fallback and only a reaching path strictly shorter than the
      best so far replaces it. */
  method ShortestPath(names: map<string, Person>, p2: string, paths: seq<seq<Person>>)
    returns (r: Result<seq<string>>)
    ensures |paths| == 0 ==> r == Err(NoSuchElement)
    ensures |paths| > 0 ==>
              exists j :: IsSelectedPath(paths, Lookup(names, p2), j) && r == Ok(Names(paths[j]))
  {
    if |paths| == 0 {
      return Err(NoSuchElement);
    }
    var person2 := Lookup(names, p2);
    var shortestPathLength := IntMaxValue;
    var shortestPath := paths[0];
    ghost var j := 0;
    for i := 0 to |paths|
      invariant 0 <= j < |paths| && shortestPath == paths[j]
      invariant shortestPathLength <= IntMaxValue
      invariant shortestPathLength == IntMaxValue ==>
                  j == 0 && forall t :: 0 <= t < i ==> !Reaches(paths[t], person2)
      invariant shortestPathLength < IntMaxValue ==>
                  && j < i
                  && Reaches(paths[j], person2)
                  && shortestPathLength == |paths[j]|
                  && (forall t :: 0 <= t < i && Reaches(paths[t], person2) ==> |paths[j]| <= |paths[t]|)
                  && (forall t :: 0 <= t < j && Reaches(paths[t], person2) ==> |paths[j]| < |paths[t]|)
    {
      var path := paths[i];
      if person2.Some? && person2.value in path {
        if |path| < shortestPathLength {
          shortestPathLength := |path|;
          shortestPath := path;
          j := i;
        }
      }
    }
    assert IsSelectedPath(paths, person2, j);
    r := Ok(Names(shortestPath));
  }

  /** Among the first `n` paths, the position of the first shortest path
      reaching the target, if any reaches it. */
  function FirstShortestIndex(paths: seq<seq<Person>>, target: Option<Person>, n: nat): (k: Option<nat>)
    requires n <= |paths|
    ensures k.None? <==> forall t :: 0 <= t < n ==> !Reaches(paths[t], target)
    ensures k.Some? ==>
              && k.value < n
              && Reaches(paths[k.value], target)
              && (forall t :: 0 <= t < n && Reaches(paths[t], target) ==> |paths[k.value]| <= |paths[t]|)
              && (forall t :: 0 <= t < k.value && Reaches(paths[t], target) ==> |paths[k.value]| < |paths[t]|)
  {
    if n == 0 then None
    else
      var k := FirstShortestIndex(paths, target, n - 1);
      if Reaches(paths[n - 1], target) && (k.None? || |paths[n - 1]| < |paths[k.value]|)
      then Some(n - 1)
      else k
  }

  /** The evidently intended shortest-path query: the same selection, but
      an unreachable target is an explicit failure instead of the
      start person's one-vertex path. */
  function ShortestPathOrFail(names: map<string, Person>, p2: string, paths: seq<seq<Person>>)
    : (r: Result<seq<string>>)
    ensures r.Ok? <==> SomePathReaches(paths, Lookup(names, p2))
    ensures r.Err? ==> r.failure == NoPath
    ensures r.Ok? ==> exists j :: IsFirstShortest(paths, Lookup(names, p2), j) && r.value == Names(paths[j])
    ensures r.Ok? ==> names[p2].name in r.value
  {
    var target := Lookup(names, p2);
    match FirstShortestIndex(paths, target, |paths|)
    case None => Err(NoPath)
    case Some(j) =>
      assert IsFirstShortest(paths, target, j);
      NamesContains(paths[j], target.value);
      Ok(Names(paths[j]))
  }

  /** Whenever the target is reachable, the code as written and the
      corrected query report the same path. */
  lemma ShortestPathAgreesWhenReachable(names: map<string, Person>, p2: string,
                                        paths: seq<seq<Person>>, j: int)
    requires IsSelectedPath(paths, Lookup(names, p2), j)
    requires SomePathReaches(paths, Lookup(names, p2))
    ensures ShortestPathOrFail(names, p2, paths) == Ok(Names(paths[j]))
  {
    var target := Lookup(names, p2);
    var k := FirstShortestIndex(paths, target, |paths|).value;
    assert IsFirstShortest(paths, target, k);
    assert |paths[j]| == |paths[k]|;
    assert j == k;
  }

  /** Search result from A in a graph where C is not reachable: the
      paths [A] and [A, B]. */
  function PathsWithoutC(): seq<seq<Person>> {
    [[Named("A")], [Named("A"), Named("B")]]
  }

  /** With C unreachable the code reports [A], a "path" to C that does
      not contain C, where an explicit failure is intended. */
  lemma ShortestPathFallbackCounterexample(j: int)
    requires IsSelectedPath(PathsWithoutC(), Lookup(map["C" := Named("C")], "C"), j)
    ensures Names(PathsWithoutC()[j]) == ["A"]
    ensures "C" !in Names(PathsWithoutC()[j])
    ensures ShortestPathOrFail(map["C" := Named("C")], "C", PathsWithoutC()) == Err(NoPath)
  {
    var paths := PathsWithoutC();
    var target := Lookup(map["C" := Named("C")], "C");
    assert target == Some(Named("C"));
    assert !Reaches(paths[0], target);
    assert !Reaches(paths[1], target);
    assert !SomePathReaches(paths, target);
    assert j == 0;
    assert Names(paths[0]) == ["A"] by {
      assert Names(paths[0])[0] == "A";
    }
  }

  // ---------------------------------------------------------------------
  // Farthest people (getFarthestPeople)

  /** The size of the longest path, 0 when there is none: the first loop
      of `getFarthestPeople` (`>=` keeps the running maximum). */
  function LongestSize(paths: seq<seq<Person>>): (n: nat)
    ensures forall t :: 0 <= t < |paths| ==> |paths[t]| <= n
    ensures |paths| > 0 ==> exists t :: 0 <= t < |paths| && |paths[t]| == n
    ensures |paths| == 0 ==> n == 0
  {
    if |paths| == 0 then 0
    else
      var rest := paths[..|paths| - 1];
      assert forall t :: 0 <= t < |rest| ==> rest[t] == paths[t];
      var m := LongestSize(rest);
      if |paths[|paths| - 1]| >= m then |paths[|paths| - 1]| else m
  }

  /** The positions below `upto` of the paths of size `n`, increasing. */
  function PositionsOfSize(paths: seq<seq<Person>>, n: nat, upto: nat): (ix: seq<nat>)
    requires upto <= |paths|
    ensures forall k :: 0 <= k < |ix| ==> ix[k] < upto && |paths[ix[k]]| == n
    ensures forall k, l :: 0 <= k < l < |ix| ==> ix[k] < ix[l]
    ensures forall t :: 0 <= t < upto && |paths[t]| == n ==> t in ix
  {
    if upto == 0 then []
    else PositionsOfSize(paths, n, upto - 1) + (if |paths[upto - 1]| == n then [upto - 1] else [])
  }

  /** `names` lists, in order, the name of the last person of each path
      at the positions `ix`, all of which are non-empty. */
  predicate LastNamesOf(names: seq<string>, paths: seq<seq<Person>>, ix: seq<nat>) {
    && |names| == |ix|
    && forall k :: 0 <= k < |ix| ==>
         && ix[k] < |paths|
         && |paths[ix[k]]| > 0
         && names[k] == paths[ix[k]][|paths[ix[k]]| - 1].name
  }

  /** Appending the last name of one more non-empty path. */
  lemma LastNamesOfExtend(names: seq<string>, paths: seq<seq<Person>>, ix: seq<nat>, i: nat)
    requires LastNamesOf(names, paths, ix)
    requires i < |paths| && |paths[i]| > 0
    ensures LastNamesOf(names + [paths[i][|paths[i]| - 1].name], paths, ix + [i])
  {
  }

  /** The first loop of `getFarthestPeople`: the running maximum of the
      path sizes, starting from 0. */
  method LongestPathLength(paths: seq<seq<Person>>) returns (longestPathLength: nat)
    ensures longestPathLength == LongestSize(paths)
  {
    longestPathLength := 0;
    for i := 0 to |paths|
      invariant forall t :: 0 <= t < i ==> |paths[t]| <= longestPathLength
      invariant longestPathLength == 0 || exists t :: 0 <= t < i && |paths[t]| == longestPathLength
    {
      if |paths[i]| >= longestPathLength {
        longestPathLength := |paths[i]|;
      }
    }
  }

  /** The second loop of `getFarthestPeople`: the last person of every
      path of size `longest`, where `getLast()` throws on the first such
      path that is empty. */
  method LastOfLongest(paths: seq<seq<Person>>, longest: nat) returns (r: Result<seq<string>>)
    ensures r.Err? <==> longest == 0 && exists t :: 0 <= t < |paths| && |paths[t]| == 0
    ensures r.Err? ==> r.failure == NoSuchElement
    ensures r.Ok? ==> LastNamesOf(r.value, paths, PositionsOfSize(paths, longest, |paths|))
  {
    var longestPathPeople: seq<string> := [];
    for i := 0 to |paths|
      invariant longest == 0 ==> forall t :: 0 <= t < i ==> |paths[t]| != 0
      invariant LastNamesOf(longestPathPeople, paths, PositionsOfSize(paths, longest, i))
    {
      var path := paths[i];
      if |path| == longest {
        if |path| == 0 {
          return Err(NoSuchElement);
        }
        LastNamesOfExtend(longestPathPeople, paths, PositionsOfSize(paths, longest, i), i);
        longestPathPeople := longestPathPeople + [path[|path| - 1].name];
      }
    }
    r := Ok(longestPathPeople);
  }

  /** `getFarthestPeople(origin)` over `paths`, the search result from
      the origin: the last person of every path of maximum size, in list
      order.  `getLast()` throws when a selected path is empty, which
      happens exactly when the list is non-empty and every path is empty. */
  method FarthestPeople(paths: seq<seq<Person>>) returns (r: Result<seq<string>>)
    ensures r.Err? <==> |paths| > 0 && forall t :: 0 <= t < |paths| ==> |paths[t]| == 0
    ensures r.Err? ==> r.failure == NoSuchElement
    ensures r.Ok? ==> LastNamesOf(r.value, paths, PositionsOfSize(paths, LongestSize(paths), |paths|))
    ensures r.Ok? && |paths| > 0 ==> |r.value| > 0
  {
    var longestPathLength := LongestPathLength(paths);
    r := LastOfLongest(paths, longestPathLength);
    if |paths| > 0 && r.Ok? {
      ghost var t :| 0 <= t < |paths| && |paths[t]| == longestPathLength;
      assert t in PositionsOfSize(paths, longestPathLength, |paths|);
    }
  }
}
