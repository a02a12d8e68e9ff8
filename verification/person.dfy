/** One notable person: a vertex of the hyperlink graph.  The Java class
    keeps its nine values in a final `HashMap<String, String>` keyed by the
    field name; equality and hashing are those of that map. */
module People {
  import opened Results

  /** The record built by the nine-argument constructor.  A datatype
      value is immutable, as the Java class is (a final map and no
      mutators), so repeated reads always agree. */
  datatype Person = Person(
    id: string,
    name: string,
    birthCity: string,
    birthState: string,
    countryName: string,
    gender: string,
    occupation: string,
    industry: string,
    domain: string)

  /** The keys the constructor stores, in the order it stores them. */
  const FieldNames: seq<string> :=
    ["id", "name", "birthCity", "birthState", "countryName",
     "gender", "occupation", "industry", "domain"]

  /** Whether `key` is one of the nine stored keys. */
  predicate IsField(key: string) {
    key in FieldNames
  }

  /** The field map the constructor fills, one `put` per argument. */
  function Fields(p: Person): map<string, string> {
    map[
      "id" := p.id,
      "name" := p.name,
      "birthCity" := p.birthCity,
      "birthState" := p.birthState,
      "countryName" := p.countryName,
      "gender" := p.gender,
      "occupation" := p.occupation,
      "industry" := p.industry,
      "domain" := p.domain]
  }

  /** `getData(key)`: the value stored under `key`, or `null` (`None`)
      for any other key. */
  function GetData(p: Person, key: string): (r: Option<string>)
    ensures key == "name" ==> r == Some(p.name)
    ensures key == "gender" ==> r == Some(p.gender)
    ensures key == "countryName" ==> r == Some(p.countryName)
  {
    if key == "id" then Some(p.id)
    else if key == "name" then Some(p.name)
    else if key == "birthCity" then Some(p.birthCity)
    else if key == "birthState" then Some(p.birthState)
    else if key == "countryName" then Some(p.countryName)
    else if key == "gender" then Some(p.gender)
    else if key == "occupation" then Some(p.occupation)
    else if key == "industry" then Some(p.industry)
    else if key == "domain" then Some(p.domain)
    else None
  }

  /** `getData` is a lookup in the field map. */
  lemma GetDataIsMapLookup(p: Person, key: string)
    ensures GetData(p, key) == if key in Fields(p) then Some(Fields(p)[key]) else None
  {
  }

  /** Whether `getData(field)` of a vertex equals `value` (false for an
      unknown field, whose value is `null`). */
  function FieldIs(field: string, value: string): Person -> bool {
    p => GetData(p, field) == Some(value)
  }

  /** `getData("name")` of each person, in order: how the analysis turns
      a list of persons into the list of names it reports. */
  function Names(ps: seq<Person>): (r: seq<string>)
    ensures |r| == |ps|
    ensures forall i :: 0 <= i < |ps| ==> r[i] == ps[i].name
  {
    if |ps| == 0 then [] else Names(ps[..|ps| - 1]) + [ps[|ps| - 1].name]
  }

  /** Every listed person's name is among the listed names. */
  lemma NamesContains(ps: seq<Person>, p: Person)
    requires p in ps
    ensures p.name in Names(ps)
  {
    var i :| 0 <= i < |ps| && ps[i] == p;
    assert Names(ps)[i] == p.name;
  }

  /** A concrete person known only by name. */
  function Named(name: string): Person {
    Person("", name, "", "", "", "", "", "", "")
  }

  /** The map's key set is exactly the nine field names. */
  lemma FieldsKeys(p: Person)
    ensures Fields(p).Keys == set k | k in FieldNames
  {
  }

  /** Every argument of the constructor reads back unchanged under its
      own field name. */
  lemma GetDataReadsBack(id: string, name: string, birthCity: string, birthState: string,
                         countryName: string, gender: string, occupation: string,
                         industry: string, domain: string)
    ensures var p := Person(id, name, birthCity, birthState, countryName,
                            gender, occupation, industry, domain);
      && GetData(p, "id") == Some(id)
      && GetData(p, "name") == Some(name)
      && GetData(p, "birthCity") == Some(birthCity)
      && GetData(p, "birthState") == Some(birthState)
      && GetData(p, "countryName") == Some(countryName)
      && GetData(p, "gender") == Some(gender)
      && GetData(p, "occupation") == Some(occupation)
      && GetData(p, "industry") == Some(industry)
      && GetData(p, "domain") == Some(domain)
  {
  }

  /** `getData` succeeds exactly on the nine field names: any other key
      gives `null`. */
  lemma GetDataDefinedIffField(p: Person, key: string)
    ensures GetData(p, key).Some? <==> IsField(key)
  {
  }

  /** The receiver of `equals`: a `Person`, or anything else (including
      `null`). */
  datatype Object = PersonObject(person: Person) | OtherObject

  /** `equals`: false for a non-`Person`, otherwise equality of the two
      field maps. */
  function Equals(p: Person, obj: Object): (r: bool)
    ensures obj == PersonObject(p) ==> r
    ensures !obj.PersonObject? ==> !r
  {
    match obj
    case OtherObject => false
    case PersonObject(q) => Fields(p) == Fields(q)
  }

  /** Structural equality: two persons are `equals` iff all nine fields
      agree, and no other object is ever `equals` to a person. */
  lemma EqualsIffSameFields(p: Person, obj: Object)
    ensures Equals(p, obj) <==> obj == PersonObject(p)
  {
    if obj.PersonObject? && Equals(p, obj) {
      var q := obj.person;
      assert Fields(p)["id"] == Fields(q)["id"];
      assert Fields(p)["name"] == Fields(q)["name"];
      assert Fields(p)["birthCity"] == Fields(q)["birthCity"];
      assert Fields(p)["birthState"] == Fields(q)["birthState"];
      assert Fields(p)["countryName"] == Fields(q)["countryName"];
      assert Fields(p)["gender"] == Fields(q)["gender"];
      assert Fields(p)["occupation"] == Fields(q)["occupation"];
      assert Fields(p)["industry"] == Fields(q)["industry"];
      assert Fields(p)["domain"] == Fields(q)["domain"];
    }
  }

  // ---------------------------------------------------------------------
  // hashCode: the hash of the field map.  Java `int` arithmetic wraps
  // modulo 2^32; hashes are kept here as that 32-bit pattern read as an
  // unsigned number.

  const TwoTo32: nat := 0x1_0000_0000

  /** `String.hashCode`: s[0]*31^(n-1) + ... + s[n-1], wrapping. */
  function StringHash(s: string): (h: nat)
    ensures h < TwoTo32
  {
    if |s| == 0 then 0
    else (31 * StringHash(s[..|s| - 1]) + s[|s| - 1] as int) % TwoTo32
  }

  /** Java's written-out definition of `String.hashCode`:
      s[0]*31^(n-1) + s[1]*31^(n-2) + ... + s[n-1], before wrapping. */
  ghost function PolyHash(s: string): int
  {
    if |s| == 0 then 0 else s[0] as int * Pow31(|s| - 1) + PolyHash(s[1..])
  }

  ghost function Pow31(n: nat): nat {
    if n == 0 then 1 else 31 * Pow31(n - 1)
  }

  /** Appending a character multiplies the polynomial by 31 and adds the
      character: Horner's rule. */
  lemma {:induction false} PolyHashSnoc(s: string, c: char)
    ensures PolyHash(s + [c]) == 31 * PolyHash(s) + c as int
  {
    if |s| == 0 {
      assert [c][1..] == [];
    } else {
      assert (s + [c])[1..] == s[1..] + [c];
      PolyHashSnoc(s[1..], c);
      var a := s[0] as int;
      assert a * Pow31(|s|) == 31 * (a * Pow31(|s| - 1));
    }
  }

  /** Wrapping after each step gives the same 32-bit pattern as wrapping
      once at the end. */
  lemma WrapStep(x: int, c: int)
    ensures (31 * (x % TwoTo32) + c) % TwoTo32 == (31 * x + c) % TwoTo32
  {
    var q := x / TwoTo32;
    assert x == q * TwoTo32 + x % TwoTo32;
    assert 31 * x + c == (31 * q) * TwoTo32 + (31 * (x % TwoTo32) + c);
    ModShift(31 * (x % TwoTo32) + c, 31 * q);
  }

  /** Adding a multiple of 2^32 does not change the 32-bit pattern. */
  lemma ModShift(b: int, k: int)
    ensures (k * TwoTo32 + b) % TwoTo32 == b % TwoTo32
  {
  }

  /** The step-by-step wrapping hash is Java's polynomial taken modulo
      2^32. */
  lemma {:induction false} StringHashIsPolynomial(s: string)
    ensures StringHash(s) == PolyHash(s) % TwoTo32
  {
    if |s| > 0 {
      var s' := s[..|s| - 1];
      var c := s[|s| - 1];
      assert s == s' + [c];
      StringHashIsPolynomial(s');
      PolyHashSnoc(s', c);
      WrapStep(PolyHash(s'), c as int);
    }
  }

  /** A map entry's hash: key hash XOR value hash. */
  function EntryHash(key: string, value: string): (h: nat)
    ensures h < TwoTo32
  {
    ((StringHash(key) as bv32) ^ (StringHash(value) as bv32)) as nat
  }

  /** The sum of the entry hashes of the keys in `keys`, wrapping. */
  function EntriesHash(m: map<string, string>, keys: seq<string>): (h: nat)
    ensures h < TwoTo32
  {
    if |keys| == 0 then 0
    else
      var k := keys[|keys| - 1];
      var e := if k in m then EntryHash(k, m[k]) else 0;
      (EntriesHash(m, keys[..|keys| - 1]) + e) % TwoTo32
  }

  /** `hashCode`: the hash of the field map, which only depends on the
      map's contents. */
  function HashCode(p: Person): (h: nat)
    ensures h < TwoTo32
  {
    EntriesHash(Fields(p), FieldNames)
  }

  /** Objects that are `equals` have the same hash code. */
  lemma EqualsImpliesSameHash(p: Person, q: Person)
    requires Equals(p, PersonObject(q))
    ensures HashCode(p) == HashCode(q)
  {
  }
}
