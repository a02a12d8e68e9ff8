# Notable-people graph analysis, modelled in Dafny

The system loads a dataset of notable people into a directed graph. A
vertex is a `Person`: an immutable record of nine string fields. An arc
is a hyperlink from one biography page to another. The analysis layer
(`GraphAnalysis`) answers a fixed set of queries over that graph:
- out-degree histogram points;
- the people with the most out-links;
- the person with the most in-links, overall and among women;
- how many men beat a given in-degree;
- people per country;
- the shortest path between two named people, and the people farthest
  from one person, both chosen among breadth-first-search paths;
- a group's share of the graph and its average in-group link fraction.

This project models that layer and `Person`, and proves what each query
computes.

Modules, leaf to root:

- `Results`: Java's `null` (`Option`), the exceptions the queries can
  raise (`Failure`, `Result`), and a `Double` that is a finite real, an
  infinity or NaN, with IEEE division of exact values (`Divide`).
- `Seqs`: counting and filtering over sequences, and the "first
  maximum" predicate that every seed-and-update loop computes.
- `People`: the `Person` record.
  - `getData` is a lookup in the nine-entry field map: `null` for any
    other key.
  - `equals` is equality of the field maps.
  - `hashCode` is Java's `HashMap` hash over `String.hashCode`, with
    32-bit wrap-around written out.
- `Graphs`: the adjacency-list graph as the analysis observes it.
  - A vertex sequence in iteration order, and a successor list per vertex.
  - The out-degree is the length of the successor list.
  - The in-degree is the number of vertices whose successor list contains
    the vertex.
- `DegreeAnalysis`: `getNumNodes`, `getMaxOutPersons`, `getMaxInPerson`,
  `getMaxWoman` and `getNumMenGreaterThan`.
- `PathAnalysis`: `getShortestPath` and `getFarthestPeople`. Both take
  the list of paths that `breadthFirstSearch` returns as a parameter.
- `GroupAnalysis`: `getNumConnectionsWithinEachCountry`, `getFraction`
  and `getAverageInGroupLinkFractions`.

Each query is modelled as the Java code behaves, quirks included. Where
the code's behaviour is evidently unintended, the model also gives a
corrected definition and proves the intended property about it (see
"## Findings").

## Behaviour worth knowing

These facts about the Java code are easy to miss. The model keeps each
of them:
- **Shortest path:**
  - the selected path is the shortest one that contains the target,
    wherever on the path the target occurs;
  - an unknown target name is looked up as `null`, which no path
    contains; it is not an error;
  - an unreachable target falls back to the first path of the search
    result.
- **Group fraction:** `getFraction` on an empty graph is 0/0, NaN.
- **Average in-group link fraction:**
  - the divisor counts all matching vertices, those without links
    included;
  - with no matching vertex it is 0/0, NaN.
- **Fixed filters:**
  - `getMaxWoman` always filters on gender "Female";
  - `getNumMenGreaterThan` always filters on gender "Male";
  - `getNumConnectionsWithinEachCountry` always groups by `countryName`.
- **Max-out-degree list:** on a tie it inserts the seed person again, so
  it does not list every maximal vertex once.

## Model

| member | source | states |
|---|---|---|
| People.GetData | Assign7ProjectTask2/Person.java:45-47 | `getData` of the three keys the analysis reads by literal name, `name`, `gender` and `countryName`, is the stored value for that field |
| People.GetDataIsMapLookup | Assign7ProjectTask2/Person.java:45-47 | `getData(key)` is the field map's entry for `key`, or `null` (None) when the key is absent |
| People.FieldsKeys | Assign7ProjectTask2/Person.java:29-38 | the constructor's map has exactly the nine field names as keys |
| People.GetDataReadsBack | Assign7ProjectTask2/Person.java:18-39 | each of the nine constructor arguments reads back unchanged through `getData` under its own field name |
| People.GetDataDefinedIffField | Assign7ProjectTask2/Person.java:45-47 | `getData` is non-null exactly for the nine field names; any other key gives `null` |
| People.Equals | Assign7ProjectTask2/Person.java:50-54 | `equals` is reflexive, and a non-`Person` (or `null`) is never equal to a person |
| People.EqualsIffSameFields | Assign7ProjectTask2/Person.java:50-54 | a person `equals` an object iff the object is a person with all nine fields equal; a non-`Person` (or `null`) is never equal |
| People.EqualsImpliesSameHash | Assign7ProjectTask2/Person.java:57-59 | persons that are `equals` have the same `hashCode` |
| People.HashCode | Assign7ProjectTask2/Person.java:57-59 | the hash is a 32-bit `int` pattern, kept as an unsigned number below 2^32 |
| People.StringHashIsPolynomial | Assign7ProjectTask2/Person.java:57-59 | `StringHash(s)` equals the sum s[0]*31^(n-1) + ... + s[n-1] reduced modulo 2^32. |
| People.Names | Assign7ProjectTask2/GraphAnalysis.java:180-183 | the name list has one entry per person, the i-th being the i-th person's `name` |
| Graphs.InDegreeBound | Assign7ProjectTask2/GraphAnalysis.java:95 | a vertex's in-degree never exceeds the number of vertices |
| Graphs.InDegreeIsPredecessorCount | Assign7ProjectTask2/GraphAnalysis.java:95 | with each vertex listed once, the in-degree is the size of the set of vertices having an arc to it |
| Results.Divide | Assign7ProjectTask2/GraphAnalysis.java:257 | double division: x/0 is NaN for x = 0 and an infinity of x's sign otherwise; otherwise the exact quotient, which lies in [0,1] when 0 <= x <= y |
| DegreeAnalysis.NumNodes | Assign7ProjectTask2/GraphAnalysis.java:70-80 | `getNumNodes(d)` never exceeds the vertex count and is 0 for a negative `d` |
| DegreeAnalysis.NumNodesCountsVertices | Assign7ProjectTask2/GraphAnalysis.java:70-80 | `getNumNodes(d)` is the number of vertices whose out-degree is exactly `d` |
| DegreeAnalysis.NumNodesSumToVertexCount | Assign7ProjectTask2/GraphAnalysis.java:70-80 | `getNumNodes(0) + ... + getNumNodes(m)`, with m the maximum out-degree, is the vertex count |
| DegreeAnalysis.SeedTiesLoop | Assign7ProjectTask2/GraphAnalysis.java:43-56 | the loop's list is headed by the first vertex of maximum key; every later entry is the seed; its length is the number of vertices with that key, plus one when the seed is the head |
| DegreeAnalysis.MaxOutPersons | Assign7ProjectTask2/GraphAnalysis.java:40-63 | on an empty graph the seed lookup throws; otherwise the names list is headed by the first vertex of maximum out-degree, the rest are the seed's name, and the length is as the loop makes it |
| DegreeAnalysis.MaxOutPersonsIntended | Assign7ProjectTask2/GraphAnalysis.java:40-63 | corrected query: fails exactly on an empty graph |
| DegreeAnalysis.MaxOutPersonsIntendedCorrect | Assign7ProjectTask2/GraphAnalysis.java:40-63 | corrected query: the list is non-empty, has one entry per vertex of maximum out-degree, contains each such vertex's name and only names of such vertices |
| DegreeAnalysis.MaxOutPersonsTieCounterexample | Assign7ProjectTask2/GraphAnalysis.java:53-55 | on two isolated vertices A, B the code returns [A, A, A] where [A, B] is intended |
| DegreeAnalysis.SeedReplaceLoop | Assign7ProjectTask2/GraphAnalysis.java:91-101 | starting from the first vertex with a recorded 0 and replacing only on a strictly larger key, the loop ends at the first vertex of maximum key |
| DegreeAnalysis.MaxInPerson | Assign7ProjectTask2/GraphAnalysis.java:87-106 | on an empty graph the seed lookup throws; otherwise the name of the first vertex whose in-degree is at least every vertex's |
| DegreeAnalysis.MaxWoman | Assign7ProjectTask2/GraphAnalysis.java:113-133 | fails (`firstElement` on an empty vector) iff no vertex is Female; otherwise returns the first Female vertex whose in-degree is at least every Female vertex's |
| DegreeAnalysis.NumMenGreaterThan | Assign7ProjectTask2/GraphAnalysis.java:140-152 | the count never exceeds the number of Male vertices |
| DegreeAnalysis.NumMenGreaterThanCountsMen | Assign7ProjectTask2/GraphAnalysis.java:140-152 | the count is the number of Male vertices with in-degree strictly greater than `k` |
| DegreeAnalysis.NumMenGreaterThanAntitone | Assign7ProjectTask2/GraphAnalysis.java:140-152 | raising `k` never increases the count |
| PathAnalysis.ShortestPath | Assign7ProjectTask2/GraphAnalysis.java:159-185 | an empty path list throws; otherwise the names, in order, of the first shortest path containing the target, or of the first path when no path contains it |
| PathAnalysis.FirstShortestIndex | Assign7ProjectTask2/GraphAnalysis.java:170-178 | finds a position exactly when some path contains the target; the position holds the earliest among the shortest such paths |
| PathAnalysis.ShortestPathOrFail | Assign7ProjectTask2/GraphAnalysis.java:159-185 | corrected query: succeeds iff some path contains the target, then reports the earliest shortest such path, which contains the target's name; fails with "no path" otherwise |
| PathAnalysis.ShortestPathAgreesWhenReachable | Assign7ProjectTask2/GraphAnalysis.java:170-178 | whenever the target is on some path, the code and the corrected query report the same path |
| PathAnalysis.ShortestPathFallbackCounterexample | Assign7ProjectTask2/GraphAnalysis.java:166-167 | for paths [A], [A, B] and target C the code reports [A], which does not contain C; the corrected query fails |
| PathAnalysis.LongestSize | Assign7ProjectTask2/GraphAnalysis.java:219-225 | the longest size is at least every path's size and is attained, or 0 for no paths |
| PathAnalysis.LongestPathLength | Assign7ProjectTask2/GraphAnalysis.java:219-225 | the first loop's running maximum (`>=`, from 0) is the longest path size |
| PathAnalysis.LastOfLongest | Assign7ProjectTask2/GraphAnalysis.java:228-232 | the second loop lists the last person's name of each path of the given size, in list order; `getLast` throws iff that size is 0 and some path is empty |
| PathAnalysis.FarthestPeople | Assign7ProjectTask2/GraphAnalysis.java:213-235 | throws iff the list is non-empty and every path is empty; otherwise the last names of exactly the longest paths, in list order, non-empty when the list is |
| GroupAnalysis.CountryCounts | Assign7ProjectTask2/GraphAnalysis.java:190-206 | the keys are exactly the country names that occur, compared exactly; each value is at least 1 and is the number of people from that country |
| GroupAnalysis.NumConnectionsWithinEachCountry | Assign7ProjectTask2/GraphAnalysis.java:191-206 | `getNumConnectionsWithinEachCountry()` has one key per country some vertex names, and each key holds the number of vertices from that country |
| GroupAnalysis.CountryCountsTotal | Assign7ProjectTask2/GraphAnalysis.java:190-206 | the values sum to the vertex count |
| GroupAnalysis.CountryCountsCaseSensitive | Assign7ProjectTask2/GraphAnalysis.java:195-201 | "China", "CHINA", "China" give the table {China: 2, CHINA: 1} |
| GroupAnalysis.Select | Assign7ProjectTask2/GraphAnalysis.java:248-252 | with an unknown field the first vertex throws (`null.equals`); otherwise the matching vertices in iteration order |
| GroupAnalysis.Fraction | Assign7ProjectTask2/GraphAnalysis.java:242-259 | throws iff the field is unknown and the graph non-empty; never infinite; NaN iff the graph is empty; otherwise matching count / vertex count, in [0,1] |
| GroupAnalysis.InGroupCount | Assign7ProjectTask2/GraphAnalysis.java:270-278 | a member's in-group successor count never exceeds its out-degree |
| GroupAnalysis.MemberFraction | Assign7ProjectTask2/GraphAnalysis.java:279 | a member's fraction is NaN iff it has no successors, never infinite, otherwise in [0,1] and times the out-degree equals the in-group count |
| GroupAnalysis.SumFractions | Assign7ProjectTask2/GraphAnalysis.java:284-291 | the sum of the non-NaN fractions is non-negative and at most the number of members with links |
| GroupAnalysis.AverageInGroupLinkFraction | Assign7ProjectTask2/GraphAnalysis.java:267-296 | throws iff the field is unknown and the graph non-empty; never infinite; NaN iff no vertex matches; otherwise in [0,1] and equal to the sum of the members' non-NaN fractions divided by the number of all members, so 0.0 when members exist but none has a link |
| GroupAnalysis.AverageOverLinkingMembers | Assign7ProjectTask2/GraphAnalysis.java:267-296 | corrected average: NaN iff no member has a link; otherwise in [0,1] and equal to the same sum divided by the number of members with links |
| GroupAnalysis.AveragesRelated | Assign7ProjectTask2/GraphAnalysis.java:293 | the code's average is the corrected one times the share of members with links, so it never exceeds that share |
| GroupAnalysis.AverageDenominatorCounterexample | Assign7ProjectTask2/GraphAnalysis.java:293 | for women A -> B with B linking nowhere the code gives 0.5 where 1.0 is intended |

## Left out

- Reader.java is not part of this model. It does the CSV loading through an external library and builds the name index. The graph and the name index (`names`, a map from name to person) are inputs.
- Row.java is not part of this model: it is not used by the analysis.
- `main`, the file-reading constructors and `toString` only load data and print reports; the representation index `main` derives is one more division of two modelled values.
- The adjacency-list graph class is not part of this model. It is represented by the vertex sequence it iterates and each vertex's successor list.
  - Its own behaviour is not modelled: arc insertion, duplicate handling, and `breadthFirstSearch`.
  - A duplicated arc counts twice in the out-degree and once in the in-degree.
  - `getNumVertices` is taken to be the length of the vertex sequence.
- PathAnalysis.ShortestPath: the breadth-first search is a parameter, and the Java method calls it twice. The model assumes both calls return the same list. The `p1` lookup only feeds the search, so it is not modelled.
- Java `int` overflow is not modelled: counts and path sizes are unbounded integers. Values that large cannot arise from a vertex list held in memory.
- Floating point: `Double` values are exact reals, so IEEE rounding and the order in which the hashtable sums its values are not modelled.
- GroupAnalysis.AverageInGroupLinkFraction counts each matching vertex position. The Java method's hashtable counts distinct persons, and the two agree because a loaded graph holds each vertex once.
- People.HashCode treats characters as Unicode scalar values. Java hashes UTF-16 code units, so strings with characters above U+FFFF hash differently.
- `null` field values are not modelled. Every `Person` field is a non-null string. In Java the constructor stores whatever it receives, and the loader passes values through unchecked. A `null` field would make `getData` return `null` for a known key, and the `equals` and `containsKey` calls of the queries would then throw.
- People.GetDataDefinedIffField: "non-null exactly for the nine field names" holds for non-null constructor arguments only, for the reason above.
- `null` vertices and successors are not modelled. No vertex or successor list entry is `null`. The graph class's `addArc` is not part of this model, and it is assumed to refuse `null` endpoints. A `null` successor would make `getData` throw in the in-group link count.
- People.GetData: its contract names only the three keys the analysis reads by literal name. The caller-chosen key of the group filters (`getFraction` and `getAverageInGroupLinkFractions`) is covered by People.GetDataIsMapLookup, and People.GetDataDefinedIffField states which keys are defined.
- People.Equals: its contract gives reflexivity and the non-`Person` case only. People.EqualsIffSameFields states the full equivalence.
- People.HashCode: its contract gives the 32-bit range only. People.EqualsImpliesSameHash and People.StringHashIsPolynomial state what the hash depends on and how strings are hashed.
- Immutability of `Person` is not a separate member. It holds by construction, because a datatype value cannot change.

## Findings

| source | as written | input that shows it | evidently intended | confidence | as-written member | corrected member |
|---|---|---|---|---|---|---|
| Assign7ProjectTask2/GraphAnalysis.java:53-55 | a tie inserts the seed `maxPerson`, not `p`, at index `numEqualMaxPersons + 1`; the counter never grows, and the seed ties with itself | two vertices A, B without arcs: [A, A, A] | every vertex of maximum out-degree once: [A, B] | high; not executed | DegreeAnalysis.MaxOutPersonsTieCounterexample | DegreeAnalysis.MaxOutPersonsIntendedCorrect |
| Assign7ProjectTask2/GraphAnalysis.java:166-167 | an unreachable target falls back to the first path, the start person alone | paths [A], [A, B], target C: [A] | an explicit "no path" failure | medium; not executed | PathAnalysis.ShortestPathFallbackCounterexample | PathAnalysis.ShortestPathOrFail |
| Assign7ProjectTask2/GraphAnalysis.java:293 | the sum skips the NaN fractions of members without links, but the divisor still counts them | women A -> B, B without links: 0.5 | the average over members with links: 1.0 | medium; not executed | GroupAnalysis.AverageDenominatorCounterexample | GroupAnalysis.AverageOverLinkingMembers |
