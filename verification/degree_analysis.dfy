/** The degree queries of the analysis layer: how many vertices have a
    given out-degree, who has the most out-links, who has the most
    in-links (overall and among women), and how many men beat a given
    in-degree.  Each is one pass over the vertices in iteration order. */
module DegreeAnalysis {
  import opened Results
  import opened Seqs
  import opened People
  import opened Graphs

  // ---------------------------------------------------------------------
  // Out-degree histogram (getNumNodes)

  /** Out-degree as a key function on vertices. */
  function OutDegrees(g: Graph): Person -> int {
    v => OutDegree(g, v)
  }

  /** In-degree as a key function on vertices. */
  function InDegrees(g: Graph): Person -> int {
    v => InDegree(g, v)
  }

  /** Whether a vertex has exactly `d` successors. */
  function HasOutDegree(g: Graph, d: int): Person -> bool {
    KeyIs(OutDegrees(g), d)
  }

  /** `getNumNodes(degree)`: the number of vertices whose out-degree is
      exactly `degree`.  It never exceeds the vertex count, and no vertex
      has a negative out-degree. */
  function NumNodes(g: Graph, degree: int): (n: nat)
    ensures n <= |g.vertices|
    ensures degree < 0 ==> n == 0
  {
    var n := CountIf(g.vertices, HasOutDegree(g, degree));
    CountIfZero(g.vertices, HasOutDegree(g, degree));
    n
  }

  /** The count is the number of distinct vertices with that out-degree. */
  lemma NumNodesCountsVertices(g: Graph, degree: int)
    requires Distinct(g.vertices)
    ensures NumNodes(g, degree) == |set v | v in g.vertices && OutDegree(g, v) == degree|
  {
    CountIfIsSetSize(g.vertices, HasOutDegree(g, degree),
                     set v | v in g.vertices && OutDegree(g, v) == degree);
  }

  /** The largest out-degree among the vertices of `s` (0 when empty). */
  function MaxOutDegreeOf(g: Graph, s: seq<Person>): (m: nat)
    ensures forall i :: 0 <= i < |s| ==> OutDegree(g, s[i]) <= m
    ensures |s| > 0 ==> exists i :: 0 <= i < |s| && OutDegree(g, s[i]) == m
    ensures |s| == 0 ==> m == 0
  {
    if |s| == 0 then 0
    else
      var s' := s[..|s| - 1];
      assert forall i :: 0 <= i < |s'| ==> s'[i] == s[i];
      var m' := MaxOutDegreeOf(g, s');
      var d := OutDegree(g, s[|s| - 1]);
      if d > m' then d else m'
  }

  /** The graph-wide maximum out-degree. */
  function MaxOutDegree(g: Graph): nat {
    MaxOutDegreeOf(g, g.vertices)
  }

  /** The number of vertices of `s` with out-degree 0, 1, ..., `m`. */
  function NodesUpTo(g: Graph, s: seq<Person>, m: int): nat
    decreases m
  {
    if m < 0 then 0 else NodesUpTo(g, s, m - 1) + CountIf(s, HasOutDegree(g, m))
  }

  /** Dropping the last vertex removes exactly its own contribution:
      one, if its out-degree is among 0..m. */
  lemma {:induction false} NodesUpToDropLast(g: Graph, s: seq<Person>, m: int)
    requires |s| > 0
    ensures NodesUpTo(g, s, m) ==
            NodesUpTo(g, s[..|s| - 1], m) + (if OutDegree(g, s[|s| - 1]) <= m then 1 else 0)
    decreases m
  {
    if m >= 0 {
      NodesUpToDropLast(g, s, m - 1);
    }
  }

  /** When every out-degree is at most `m`, the counts for 0..m add up to
      the number of vertices. */
  lemma {:induction false} NodesUpToCoversAll(g: Graph, s: seq<Person>, m: int)
    requires forall i :: 0 <= i < |s| ==> OutDegree(g, s[i]) <= m
    ensures NodesUpTo(g, s, m) == |s|
  {
    if |s| == 0 {
      if m >= 0 {
        NodesUpToCoversAll(g, s, m - 1);
      }
    } else {
      var s' := s[..|s| - 1];
      assert forall i :: 0 <= i < |s'| ==> s'[i] == s[i];
      NodesUpToCoversAll(g, s', m);
      NodesUpToDropLast(g, s, m);
    }
  }

  /** `getNumNodes(0) + getNumNodes(1) + ... + getNumNodes(m)`. */
  function NumNodesUpTo(g: Graph, m: int): nat
    decreases m
  {
    if m < 0 then 0 else NumNodesUpTo(g, m - 1) + NumNodes(g, m)
  }

  /** The running sum of `getNumNodes` is the histogram count over the
      graph's vertices. */
  lemma {:induction false} NumNodesUpToIsNodesUpTo(g: Graph, m: int)
    ensures NumNodesUpTo(g, m) == NodesUpTo(g, g.vertices, m)
    decreases m
  {
    if m >= 0 {
      NumNodesUpToIsNodesUpTo(g, m - 1);
    }
  }

  /** Summing `getNumNodes(d)` over d = 0 .. max out-degree gives the
      number of vertices: every vertex is counted once, under its own
      out-degree. */
  lemma NumNodesSumToVertexCount(g: Graph)
    ensures NumNodesUpTo(g, MaxOutDegree(g)) == |g.vertices|
  {
    NumNodesUpToIsNodesUpTo(g, MaxOutDegree(g));
    NodesUpToCoversAll(g, g.vertices, MaxOutDegree(g));
  }

  // ---------------------------------------------------------------------
  // Maximum out-degree (getMaxOutPersons)

  /** Position `j` of `s` holds the first vertex whose out-degree is at
      least that of every vertex of `s`. */
  predicate IsFirstMaxOut(g: Graph, s: seq<Person>, j: int) {
    IsFirstMax(s, OutDegrees(g), j)
  }

  /** What `getMaxOutPersons` returns as written.  On an empty graph the
      seed lookup throws.  Otherwise the head of the list is the first
      vertex of maximum out-degree (only a strict `>` replaces it), and
      every later entry is the seed vertex (the first vertex), inserted
      once per tie since the last replacement.  The seed also ties with
      itself on the first iteration, so when the seed is the head the
      list is one longer than the number of maximal vertices. */
  ghost predicate MaxOutPersonsAsWritten(g: Graph, r: Result<seq<string>>) {
    if |g.vertices| == 0 then r == Err(NoSuchElement)
    else r.Ok? && exists j :: MaxOutListHeadedAt(g, r.value, j)
  }

  /** `names` is the as-written list whose head is the vertex at `j`. */
  ghost predicate MaxOutListHeadedAt(g: Graph, names: seq<string>, j: int) {
    && IsFirstMaxOut(g, g.vertices, j)
    && |names| == NumNodes(g, OutDegree(g, g.vertices[j])) + (if j == 0 then 1 else 0)
    && |names| >= 1
    && names[0] == g.vertices[j].name
    && forall t :: 1 <= t < |names| ==> names[t] == g.vertices[0].name
  }

  /** `getMaxOutPersons`: the loop over the vertices, then the names. */
  method MaxOutPersons(g: Graph) returns (r: Result<seq<string>>)
    ensures MaxOutPersonsAsWritten(g, r)
  {
    if |g.vertices| == 0 {
      return Err(NoSuchElement);
    }
    var maxPersons, h := SeedTiesLoop(g.vertices, OutDegrees(g));
    var names := Names(maxPersons);
    assert MaxOutListHeadedAt(g, names, h);
    r := Ok(names);
  }

  /** The loop of `getMaxOutPersons` with out-degree as `key`, statement
      for statement.  The list starts as [seed]; a strictly larger key
      resets it to [p]; an equal key inserts the seed at index
      `numEqualMaxPersons + 1`, and `numEqualMaxPersons` is never
      incremented. */
  method SeedTiesLoop(vs: seq<Person>, key: Person -> int)
    returns (maxPersons: seq<Person>, ghost h: nat)
    requires |vs| > 0
    ensures IsFirstMax(vs, key, h)
    ensures |maxPersons| == CountIf(vs, KeyIs(key, key(vs[h]))) + (if h == 0 then 1 else 0)
    ensures |maxPersons| >= 1 && maxPersons[0] == vs[h]
    ensures forall t :: 1 <= t < |maxPersons| ==> maxPersons[t] == vs[0]
  {
    var numEqualMaxPersons := 0;
    var maxPerson := vs[0];
    maxPersons := [maxPerson];
    h := 0;
    for i := 0 to |vs|
      invariant 0 <= h < |vs| && (h < i || h == 0)
      invariant |maxPersons| >= 1 && maxPersons[0] == vs[h]
      invariant forall t :: 1 <= t < |maxPersons| ==> maxPersons[t] == maxPerson
      invariant forall t :: 0 <= t < i ==> key(vs[t]) <= key(vs[h])
      invariant forall t :: 0 <= t < h ==> key(vs[t]) < key(vs[h])
      invariant |maxPersons| == CountIf(vs[..i], KeyIs(key, key(vs[h]))) + (if h == 0 then 1 else 0)
    {
      var p := vs[i];
      if key(p) > key(maxPersons[0]) {
        CountIfFirstHit(vs, KeyIs(key, key(p)), i);
        maxPersons := [p];
        h := i;
      } else if key(p) == key(maxPersons[0]) {
        CountIfStep(vs, KeyIs(key, key(vs[h])), i);
        maxPersons := maxPersons[..numEqualMaxPersons + 1] + [maxPerson]
                      + maxPersons[numEqualMaxPersons + 1..];
      } else {
        CountIfStep(vs, KeyIs(key, key(vs[h])), i);
      }
    }
    assert vs[..|vs|] == vs;
  }

  /** The vertices of maximum out-degree, in iteration order. */
  function TopOutVertices(g: Graph): seq<Person> {
    Filter(g.vertices, HasOutDegree(g, MaxOutDegree(g)))
  }

  /** The evidently intended result: the names of every vertex of maximum
      out-degree, each once, in iteration order. */
  function MaxOutPersonsIntended(g: Graph): (r: Result<seq<string>>)
    ensures r.Err? <==> |g.vertices| == 0
  {
    if |g.vertices| == 0 then Err(NoSuchElement) else Ok(Names(TopOutVertices(g)))
  }

  /** On a non-empty graph the corrected list is non-empty, names each
      vertex of maximum out-degree, and names nothing else. */
  lemma MaxOutPersonsIntendedCorrect(g: Graph)
    requires |g.vertices| > 0
    ensures var r := MaxOutPersonsIntended(g);
      && r.Ok?
      && |r.value| == NumNodes(g, MaxOutDegree(g)) >= 1
      && (forall v :: v in g.vertices && OutDegree(g, v) == MaxOutDegree(g) ==> v.name in r.value)
      && (forall k :: 0 <= k < |r.value| ==>
            exists v :: v in g.vertices && v.name == r.value[k] && OutDegree(g, v) == MaxOutDegree(g))
  {
    var top := TopOutVertices(g);
    CountIfZero(g.vertices, HasOutDegree(g, MaxOutDegree(g)));
    forall v | v in g.vertices && OutDegree(g, v) == MaxOutDegree(g)
      ensures v.name in Names(top)
    {
      assert HasOutDegree(g, MaxOutDegree(g))(v);
      NamesContains(top, v);
    }
    forall k | 0 <= k < |top|
      ensures top[k] in g.vertices && OutDegree(g, top[k]) == MaxOutDegree(g)
    {
      assert top[k] in top;
    }
  }

  /** Two vertices, no arcs: both have the maximum out-degree 0. */
  function TwoIsolated(): Graph {
    Graph([Named("A"), Named("B")], map[Named("A") := [], Named("B") := []])
  }

  /** On two isolated vertices A, B the code reports A three times and
      never B, where every maximal vertex once ([A, B]) is intended. */
  lemma MaxOutPersonsTieCounterexample(r: Result<seq<string>>)
    requires MaxOutPersonsAsWritten(TwoIsolated(), r)
    ensures r == Ok(["A", "A", "A"])
    ensures MaxOutPersonsIntended(TwoIsolated()) == Ok(["A", "B"])
  {
    var g := TwoIsolated();
    TwoIsolatedDegrees();
    var j :| MaxOutListHeadedAt(g, r.value, j);
    assert OutDegrees(g)(g.vertices[0]) == OutDegrees(g)(g.vertices[1]);
    assert j == 0;
    ThreeTimesA(r.value);
    TwoIsolatedIntended();
  }

  /** Three copies of the name "A". */
  lemma ThreeTimesA(names: seq<string>)
    requires |names| == 3 && forall t :: 1 <= t < 3 ==> names[t] == names[0]
    requires names[0] == "A"
    ensures names == ["A", "A", "A"]
  {
  }

  /** Both isolated vertices have out-degree 0, the maximum. */
  lemma TwoIsolatedDegrees()
    ensures var g := TwoIsolated();
      && OutDegree(g, g.vertices[0]) == 0 && OutDegree(g, g.vertices[1]) == 0
      && NumNodes(g, 0) == 2
  {
    var g := TwoIsolated();
    var vs := g.vertices;
    assert vs[..1] == [Named("A")];
    assert vs[..1][..0] == [];
  }

  /** The corrected query names both isolated vertices, once each. */
  lemma TwoIsolatedIntended()
    ensures MaxOutPersonsIntended(TwoIsolated()) == Ok(["A", "B"])
  {
    var g := TwoIsolated();
    TwoIsolatedTop();
    var names := Names([Named("A"), Named("B")]);
    assert |names| == 2 && names[0] == "A" && names[1] == "B";
    assert names == ["A", "B"];
    assert |g.vertices| == 2;
    assert MaxOutPersonsIntended(g) == Ok(Names(TopOutVertices(g)));
  }

  /** Both isolated vertices have the maximum out-degree. */
  lemma TwoIsolatedTop()
    ensures TopOutVertices(TwoIsolated()) == [Named("A"), Named("B")]
  {
    var g := TwoIsolated();
    var vs := g.vertices;
    TwoIsolatedDegrees();
    assert MaxOutDegree(g) == 0 by {
      assert vs[..1] == [Named("A")];
      assert vs[..1][..0] == [];
    }
    assert vs[..1] == [Named("A")];
    assert vs[..1][..0] == [];
  }

  // ---------------------------------------------------------------------
  // Maximum in-degree (getMaxInPerson, getMaxWoman)

  /** Position `j` of `s` holds the first vertex whose in-degree is at
      least that of every vertex of `s`. */
  predicate IsFirstMaxIn(g: Graph, s: seq<Person>, j: int) {
    IsFirstMax(s, InDegrees(g), j)
  }

  /** The seed-and-update loop both in-degree finders run, with in-degree
      as `key`: the first element is the candidate with a recorded key of
      0, and only a strictly larger key replaces it.  Keys are never
      negative, so the winner is the first element of maximum key. */
  method SeedReplaceLoop(s: seq<Person>, key: Person -> int) returns (best: Person)
    requires |s| > 0
    requires forall t :: 0 <= t < |s| ==> key(s[t]) >= 0
    ensures exists j :: IsFirstMax(s, key, j) && best == s[j]
  {
    best := s[0];
    var bestDegree := 0;
    ghost var h := 0;
    for i := 0 to |s|
      invariant 0 <= h < |s| && best == s[h] && (h < i || h == 0)
      invariant i == 0 ==> bestDegree == 0
      invariant i > 0 ==> bestDegree == key(s[h])
      invariant forall t :: 0 <= t < i ==> key(s[t]) <= bestDegree
      invariant forall t :: 0 <= t < h ==> key(s[t]) < key(s[h])
    {
      var d := key(s[i]);
      if d > bestDegree {
        best := s[i];
        bestDegree := d;
        h := i;
      }
    }
    assert IsFirstMax(s, key, h);
  }

  /** `getMaxInPerson`: the name of the first vertex of maximum
      in-degree; the seed lookup throws on an empty graph.  The Java
      method keeps its candidate in a hashtable that always holds exactly
      that one entry, so the hashtable is not modelled. */
  method MaxInPerson(g: Graph) returns (r: Result<string>)
    ensures |g.vertices| == 0 ==> r == Err(NoSuchElement)
    ensures |g.vertices| > 0 ==>
              exists j :: IsFirstMaxIn(g, g.vertices, j) && r == Ok(g.vertices[j].name)
  {
    if |g.vertices| == 0 {
      return Err(NoSuchElement);
    }
    var best := SeedReplaceLoop(g.vertices, InDegrees(g));
    r := Ok(best.name);
  }

  /** The women of the graph, in iteration order. */
  function Women(g: Graph): seq<Person> {
    Filter(g.vertices, FieldIs("gender", "Female"))
  }

  /** `getMaxWoman`: the first woman of maximum in-degree among women.
      With no woman in the graph `firstElement()` throws. */
  method MaxWoman(g: Graph) returns (r: Result<Person>)
    ensures r.Err? <==> forall v :: v in g.vertices ==> v.gender != "Female"
    ensures r.Err? ==> r.failure == NoSuchElement
    ensures r.Ok? ==> exists j :: IsFirstMaxIn(g, Women(g), j) && r.value == Women(g)[j]
    ensures r.Ok? ==> r.value in g.vertices && r.value.gender == "Female"
    ensures r.Ok? ==> forall v :: v in g.vertices && v.gender == "Female" ==>
                        InDegree(g, v) <= InDegree(g, r.value)
  {
    var allWomen := Women(g);
    if |allWomen| == 0 {
      CountIfZero(g.vertices, FieldIs("gender", "Female"));
      assert forall v :: v in g.vertices ==> v.gender != "Female" by {
        forall v | v in g.vertices ensures v.gender != "Female" {
          var i :| 0 <= i < |g.vertices| && g.vertices[i] == v;
          assert !FieldIs("gender", "Female")(g.vertices[i]);
        }
      }
      return Err(NoSuchElement);
    }
    assert allWomen[0] in allWomen;
    var maxWoman := SeedReplaceLoop(allWomen, InDegrees(g));
    r := Ok(maxWoman);
    assert forall v :: v in g.vertices && v.gender == "Female" ==> v in allWomen;
    assert forall v :: v in allWomen ==> exists t :: 0 <= t < |allWomen| && allWomen[t] == v;
  }

  // ---------------------------------------------------------------------
  // Men above a threshold (getNumMenGreaterThan)

  /** A man whose in-degree is strictly greater than `k`. */
  function ManAbove(g: Graph, k: int): Person -> bool {
    p => GetData(p, "gender") == Some("Male") && InDegree(g, p) > k
  }

  /** `getNumMenGreaterThan(k)`: the number of men whose in-degree is
      strictly greater than `k`; at most the number of men. */
  function NumMenGreaterThan(g: Graph, k: int): (n: nat)
    ensures n <= CountIf(g.vertices, FieldIs("gender", "Male"))
  {
    CountIfMonotone(g.vertices, ManAbove(g, k), FieldIs("gender", "Male"));
    CountIf(g.vertices, ManAbove(g, k))
  }

  /** Exactly the distinct men above the threshold are counted. */
  lemma NumMenGreaterThanCountsMen(g: Graph, k: int)
    requires Distinct(g.vertices)
    ensures NumMenGreaterThan(g, k) ==
            |set v | v in g.vertices && v.gender == "Male" && InDegree(g, v) > k|
  {
    CountIfIsSetSize(g.vertices, ManAbove(g, k),
                     set v | v in g.vertices && v.gender == "Male" && InDegree(g, v) > k);
  }

  /** Raising the threshold never increases the count. */
  lemma NumMenGreaterThanAntitone(g: Graph, k1: int, k2: int)
    requires k1 <= k2
    ensures NumMenGreaterThan(g, k2) <= NumMenGreaterThan(g, k1)
  {
    CountIfMonotone(g.vertices, ManAbove(g, k2), ManAbove(g, k1));
  }
}
