/** The directed graph the analysis runs on.  The adjacency-list class
    itself is not part of this model: it is represented by what the
    analysis observes of it, the vertex sequence in iteration order and
    each vertex's successor list. */
module Graphs {
  import opened Seqs
  import opened People

  /** `vertices` is the order `getVertices()` iterates in; `succ[v]` is
      `getSuccessors(v)`. */
  datatype Graph = Graph(vertices: seq<Person>, succ: map<Person, seq<Person>>)

  /** `getSuccessors(v)`. */
  function Successors(g: Graph, v: Person): seq<Person> {
    if v in g.succ then g.succ[v] else []
  }

  /** `getSuccessors(v).size()`: every listed arc counts. */
  function OutDegree(g: Graph, v: Person): nat {
    |Successors(g, v)|
  }

  /** Whether `u` has an arc to `v`. */
  function HasArcTo(g: Graph, v: Person): Person -> bool {
    u => v in Successors(g, u)
  }

  /** `getPredecessors(v).size()`: the number of vertices with an arc to
      `v`, each counted once. */
  function InDegree(g: Graph, v: Person): nat {
    CountIf(g.vertices, HasArcTo(g, v))
  }

  /** In-degree is bounded by the number of vertices. */
  lemma InDegreeBound(g: Graph, v: Person)
    ensures InDegree(g, v) <= |g.vertices|
  {
  }

  /** With each vertex listed once, the in-degree is the number of
      vertices listing `v` among their successors. */
  lemma InDegreeIsPredecessorCount(g: Graph, v: Person)
    requires Distinct(g.vertices)
    ensures InDegree(g, v) == |set u | u in g.vertices && v in Successors(g, u)|
  {
    CountIfIsSetSize(g.vertices, HasArcTo(g, v),
                     set u | u in g.vertices && v in Successors(g, u));
  }
}
