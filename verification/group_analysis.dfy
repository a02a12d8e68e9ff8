/** The group queries of the analysis layer: how many people each country
    has, what fraction of the graph a group is, and how strongly a group's
    pages link to one another. */
module GroupAnalysis {
  import opened Results
  import opened Seqs
  import opened People
  import opened Graphs

  // ---------------------------------------------------------------------
  // People per country (getNumConnectionsWithinEachCountry)

  /** Whether a person's `countryName` is `c` (compared exactly, case
      included). */
  function HasCountry(c: string): Person -> bool {
    (p: Person) => p.countryName == c
  }

  /** The country table built over `vs` in iteration order: an unseen
      country enters with 1, a seen one is incremented.  Its keys are
      exactly the countries that occur and each value is the number of
      people from that country. */
  function CountryCounts(vs: seq<Person>): (m: map<string, nat>)
    ensures forall c :: c in m <==> exists i :: 0 <= i < |vs| && vs[i].countryName == c
    ensures forall c :: c in m ==> m[c] >= 1 && m[c] == CountIf(vs, HasCountry(c))
  {
    if |vs| == 0 then map[]
    else
      var vs' := vs[..|vs| - 1];
      var m' := CountryCounts(vs');
      var c := vs[|vs| - 1].countryName;
      assert forall i :: 0 <= i < |vs'| ==> vs'[i] == vs[i];
      if c !in m' then CountIfZero(vs', HasCountry(c)); Tally(m', c)
      else Tally(m', c)
  }

  /** One step of the table loop: increment a seen country, enter an
      unseen one with 1. */
  function Tally(m: map<string, nat>, c: string): map<string, nat> {
    if c in m then m[c := m[c] + 1] else m[c := 1]
  }

  /** `getNumConnectionsWithinEachCountry()` on the graph's vertices: one
      entry per country some vertex names, holding that country's head
      count. */
  function NumConnectionsWithinEachCountry(g: Graph): (m: map<string, nat>)
    ensures forall c :: c in m <==> exists v :: v in g.vertices && v.countryName == c
    ensures forall c :: c in m ==> m[c] == CountIf(g.vertices, HasCountry(c))
  {
    var m := CountryCounts(g.vertices);
    assert forall c :: c in m ==> exists i :: 0 <= i < |g.vertices| && g.vertices[i].countryName == c;
    m
  }

  /** The sum of a table's values. */
  ghost function Total(m: map<string, nat>): nat
    decreases |m|
  {
    if |m| == 0 then 0
    else
      var k := Pick(m.Keys);
      assert |m.Keys - {k}| == |m.Keys| - 1;
      m[k] + Total(m - {k})
  }

  /** The sum can be taken starting from any key. */
  lemma {:induction false} TotalRemove(m: map<string, nat>, k: string)
    requires k in m
    ensures Total(m) == m[k] + Total(m - {k})
    decreases |m|
  {
    var j := Pick(m.Keys);
    assert |m.Keys - {j}| == |m.Keys| - 1;
    if j != k {
      assert |(m - {k}).Keys| == |m.Keys| - 1;
      TotalRemove(m - {j}, k);
      TotalRemove(m - {k}, j);
      assert m - {j} - {k} == m - {k} - {j};
    }
  }

  /** Tallying one more person adds one to the sum. */
  lemma TallyTotal(m: map<string, nat>, c: string)
    ensures Total(Tally(m, c)) == Total(m) + 1
  {
    if c in m {
      TallySeenTotal(m, c);
    } else {
      TallyNewTotal(m, c);
    }
  }

  /** Incrementing a seen key adds one to the sum. */
  lemma TallySeenTotal(m: map<string, nat>, c: string)
    requires c in m
    ensures Total(m[c := m[c] + 1]) == Total(m) + 1
  {
    var m2 := m[c := m[c] + 1];
    TotalRemove(m2, c);
    TotalRemove(m, c);
    assert m2 - {c} == m - {c};
  }

  /** Entering an unseen key with 1 adds one to the sum. */
  lemma TallyNewTotal(m: map<string, nat>, c: string)
    requires c !in m
    ensures Total(m[c := 1]) == Total(m) + 1
  {
    var m2 := m[c := 1];
    TotalRemove(m2, c);
    assert m2 - {c} == m;
  }

  /** Every person is counted exactly once: the table's values sum to the
      number of vertices. */
  lemma {:induction false} CountryCountsTotal(vs: seq<Person>)
    ensures Total(CountryCounts(vs)) == |vs|
  {
    if |vs| > 0 {
      CountryCountsTotal(vs[..|vs| - 1]);
      TallyTotal(CountryCounts(vs[..|vs| - 1]), vs[|vs| - 1].countryName);
    }
  }

  /** A person from the given country, otherwise blank. */
  function FromCountry(name: string, country: string): Person {
    Named(name).(countryName := country)
  }

  /** Country names are compared exactly: "China" and "CHINA" stay two
      keys. */
  lemma CountryCountsCaseSensitive()
    ensures CountryCounts([FromCountry("A", "China"), FromCountry("B", "CHINA"), FromCountry("C", "China")])
            == map["China" := 2, "CHINA" := 1]
  {
    var vs := [FromCountry("A", "China"), FromCountry("B", "CHINA"), FromCountry("C", "China")];
    assert vs[..1] == [FromCountry("A", "China")];
    assert vs[..2][..1] == vs[..1];
    assert vs[..2] == [FromCountry("A", "China"), FromCountry("B", "CHINA")];
  }

  // ---------------------------------------------------------------------
  // Group membership (the selection loop of getFraction and
  // getAverageInGroupLinkFractions)

  /** The vertices whose `field` equals `value`, in iteration order.  For an
      unknown field `getData` is `null`, so calling `equals` on it raises a
      NullPointerException at the first vertex. */
  function Select(vs: seq<Person>, field: string, value: string): (r: Result<seq<Person>>)
    ensures r.Err? <==> |vs| > 0 && !IsField(field)
    ensures r.Err? ==> r.failure == NullPointer
    ensures r.Ok? ==> r.value == Filter(vs, FieldIs(field, value))
  {
    if |vs| == 0 then Ok([])
    else
      match Select(vs[..|vs| - 1], field, value)
      case Err(e) => Err(e)
      case Ok(selected) =>
        var p := vs[|vs| - 1];
        match GetData(p, field)
        case None => Err(NullPointer)
        case Some(x) => Ok(selected + (if x == value then [p] else []))
  }

  /** `getFraction(field, value)`: the group's share of all vertices.  An
      empty graph gives 0/0, NaN; otherwise it is a finite fraction. */
  function Fraction(g: Graph, field: string, value: string): (r: Result<Double>)
    ensures r.Err? <==> |g.vertices| > 0 && !IsField(field)
    ensures r.Err? ==> r.failure == NullPointer
    ensures r.Ok? ==> !r.value.Infinite? && (r.value.NaN? <==> |g.vertices| == 0)
    ensures r.Ok? && r.value.Finite? ==> 0.0 <= r.value.value <= 1.0
    ensures r.Ok? && |g.vertices| > 0 ==>
              r.value == Finite(CountIf(g.vertices, FieldIs(field, value)) as real / |g.vertices| as real)
  {
    match Select(g.vertices, field, value)
    case Err(e) => Err(e)
    case Ok(members) => Ok(Divide(|members| as real, |g.vertices| as real))
  }

  // ---------------------------------------------------------------------
  // In-group link fractions (getAverageInGroupLinkFractions)

  /** The number of a vertex's successors in the group.  Only asked of a
      member, so `field` is a known field and no `null` arises here. */
  function InGroupCount(g: Graph, p: Person, field: string, value: string): (n: nat)
    ensures n <= OutDegree(g, p)
  {
    CountIf(Successors(g, p), FieldIs(field, value))
  }

  /** A member's in-group link fraction, `count / totalConnections` in
      doubles: NaN for a member without outgoing links, otherwise a finite
      fraction; never infinite. */
  function MemberFraction(g: Graph, p: Person, field: string, value: string): (f: Double)
    ensures !f.Infinite?
    ensures f.NaN? <==> OutDegree(g, p) == 0
    ensures f.Finite? ==>
              && 0.0 <= f.value <= 1.0
              && f.value * OutDegree(g, p) as real == InGroupCount(g, p, field, value) as real
  {
    var count := InGroupCount(g, p, field, value);
    var total := OutDegree(g, p);
    Divide(count as real, total as real)
  }

  /** Whether a vertex has at least one outgoing link. */
  function Links(g: Graph): Person -> bool {
    p => OutDegree(g, p) > 0
  }

  /** The sum of the members' fractions, NaN ones skipped.  Each member
      with links adds at most 1. */
  function SumFractions(g: Graph, ms: seq<Person>, field: string, value: string): (s: real)
    ensures 0.0 <= s <= CountIf(ms, Links(g)) as real
  {
    if |ms| == 0 then 0.0
    else
      var f := MemberFraction(g, ms[|ms| - 1], field, value);
      SumFractions(g, ms[..|ms| - 1], field, value) + (if f.Finite? then f.value else 0.0)
  }

  /** `getAverageInGroupLinkFractions(field, value)` as written: the sum
      of the members' non-NaN fractions divided by the number of all
      members, those without links included.  NaN exactly when the group
      is empty; otherwise a fraction that never exceeds the share of
      members with links. */
  function AverageInGroupLinkFraction(g: Graph, field: string, value: string): (r: Result<Double>)
    ensures r.Err? <==> |g.vertices| > 0 && !IsField(field)
    ensures r.Err? ==> r.failure == NullPointer
    ensures r.Ok? ==> !r.value.Infinite?
    ensures r.Ok? ==> (r.value.NaN? <==> CountIf(g.vertices, FieldIs(field, value)) == 0)
    ensures r.Ok? && r.value.Finite? ==> 0.0 <= r.value.value <= 1.0
    ensures r.Ok? && CountIf(g.vertices, FieldIs(field, value)) > 0 ==>
              r.value == Finite(SumFractions(g, Filter(g.vertices, FieldIs(field, value)), field, value)
                                / CountIf(g.vertices, FieldIs(field, value)) as real)
    ensures r.Ok? && CountIf(g.vertices, FieldIs(field, value)) > 0
            && CountIf(Filter(g.vertices, FieldIs(field, value)), Links(g)) == 0 ==>
              r.value == Finite(0.0)
  {
    match Select(g.vertices, field, value)
    case Err(e) => Err(e)
    case Ok(members) =>
      assert CountIf(members, Links(g)) == 0 ==> SumFractions(g, members, field, value) == 0.0;
      Ok(Divide(SumFractions(g, members, field, value), |members| as real))
  }

  /** The evidently intended average: members without links have no
      fraction (NaN) and are left out of the denominator as they are left
      out of the sum.  NaN exactly when no member has a link. */
  function AverageOverLinkingMembers(g: Graph, field: string, value: string): (r: Result<Double>)
    ensures r.Err? <==> |g.vertices| > 0 && !IsField(field)
    ensures r.Err? ==> r.failure == NullPointer
    ensures r.Ok? ==> !r.value.Infinite?
    ensures r.Ok? ==> (r.value.NaN? <==> CountIf(Filter(g.vertices, FieldIs(field, value)), Links(g)) == 0)
    ensures r.Ok? && r.value.Finite? ==> 0.0 <= r.value.value <= 1.0
    ensures r.Ok? && CountIf(Filter(g.vertices, FieldIs(field, value)), Links(g)) > 0 ==>
              r.value == Finite(SumFractions(g, Filter(g.vertices, FieldIs(field, value)), field, value)
                                / CountIf(Filter(g.vertices, FieldIs(field, value)), Links(g)) as real)
  {
    match Select(g.vertices, field, value)
    case Err(e) => Err(e)
    case Ok(members) =>
      var linking := CountIf(members, Links(g));
      assert linking == 0 ==> SumFractions(g, members, field, value) == 0.0;
      Ok(Divide(SumFractions(g, members, field, value), linking as real))
  }

  /** The two averages share their numerator, so the one as written is
      the intended one scaled by the share of members that have links: it
      never exceeds that share, and the two agree only when every member
      has a link or the numerator is 0. */
  lemma AveragesRelated(g: Graph, field: string, value: string)
    requires IsField(field)
    requires CountIf(Filter(g.vertices, FieldIs(field, value)), Links(g)) > 0
    ensures AverageInGroupLinkFraction(g, field, value).Ok?
    ensures AverageOverLinkingMembers(g, field, value).Ok?
    ensures AverageInGroupLinkFraction(g, field, value).value.Finite?
    ensures AverageOverLinkingMembers(g, field, value).value.Finite?
    ensures var members := Filter(g.vertices, FieldIs(field, value));
            var share := CountIf(members, Links(g)) as real / |members| as real;
            && AverageInGroupLinkFraction(g, field, value).value.value
               == AverageOverLinkingMembers(g, field, value).value.value * share
            && AverageInGroupLinkFraction(g, field, value).value.value <= share
  {
    var members := Filter(g.vertices, FieldIs(field, value));
    assert Select(g.vertices, field, value) == Ok(members);
    DivideRescale(SumFractions(g, members, field, value), CountIf(members, Links(g)) as real, |members| as real);
  }

  /** A woman known only by name. */
  function Woman(name: string): Person {
    Named(name).(gender := "Female")
  }

  /** A links to B, B links nowhere; both are women. */
  function OneLink(): Graph {
    Graph([Woman("A"), Woman("B")], map[Woman("A") := [Woman("B")], Woman("B") := []])
  }

  /** In `OneLink` both vertices are women, A's one link stays in the
      group, and B has no link. */
  lemma OneLinkFacts()
    ensures Filter(OneLink().vertices, FieldIs("gender", "Female")) == OneLink().vertices
    ensures MemberFraction(OneLink(), Woman("A"), "gender", "Female") == Finite(1.0)
    ensures MemberFraction(OneLink(), Woman("B"), "gender", "Female") == NaN
  {
    var g := OneLink();
    assert g.vertices[..1] == [Woman("A")];
    OneLinkFractionA();
    OneLinkFractionB();
  }

  /** A's one link goes to a woman. */
  lemma OneLinkFractionA()
    ensures MemberFraction(OneLink(), Woman("A"), "gender", "Female") == Finite(1.0)
  {
    var g := OneLink();
    assert Successors(g, Woman("A")) == [Woman("B")];
    assert Successors(g, Woman("A"))[..0] == [];
    assert InGroupCount(g, Woman("A"), "gender", "Female") == 1;
  }

  /** B has no link. */
  lemma OneLinkFractionB()
    ensures MemberFraction(OneLink(), Woman("B"), "gender", "Female") == NaN
  {
    assert Successors(OneLink(), Woman("B")) == [];
  }

  /** The sum of the two women's fractions and the number with links. */
  lemma OneLinkSums()
    ensures SumFractions(OneLink(), OneLink().vertices, "gender", "Female") == 1.0
    ensures CountIf(OneLink().vertices, Links(OneLink())) == 1
  {
    var g := OneLink();
    OneLinkFacts();
    assert g.vertices[..1] == [Woman("A")];
    assert g.vertices[..1][..0] == [];
    assert OutDegree(g, Woman("A")) == 1;
    assert OutDegree(g, Woman("B")) == 0;
  }

  /** Every link of every woman in `OneLink` stays in the group, yet the
      code reports an average of 0.5 because B, which has no link, still
      counts in the denominator; the intended average is 1. */
  lemma AverageDenominatorCounterexample()
    ensures AverageInGroupLinkFraction(OneLink(), "gender", "Female") == Ok(Finite(0.5))
    ensures AverageOverLinkingMembers(OneLink(), "gender", "Female") == Ok(Finite(1.0))
  {
    var g := OneLink();
    OneLinkFacts();
    OneLinkSums();
    assert Select(g.vertices, "gender", "Female") == Ok(g.vertices);
  }
}
