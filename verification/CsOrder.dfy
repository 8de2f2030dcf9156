/** The order of the Content Store index (table/cs-entry-impl.cpp): stored entries by full name,
    and queries, which are bare names, among them. */
module CsOrder {
  import opened Common
  import opened Names

  /** A Data packet: its name, its implicit digest, and its FreshnessPeriod (negative if absent). */
  datatype Data = Data(name: Name, digest: nat, freshness: int)

  function FullName(d: Data): Name {
    d.name + [Digest(d.digest)]
  }

  /** Implicit digests stand in last position only; a Data name has none. */
  ghost predicate WellPlaced(name: Name) {
    forall i :: 0 <= i < |name| - 1 ==> name[i].Generic?
  }

  ghost predicate NoDigest(name: Name) {
    forall i :: 0 <= i < |name| ==> name[i].Generic?
  }

  function Rank(c: Component): nat {
    match c
    case Digest(value) => value
    case Generic(rank) => rank
  }

  /** Canonical order of components: negative, zero or positive. */
  function CompareComponent(a: Component, b: Component): int {
    if a.Digest? != b.Digest? then if a.Digest? then -1 else 1
    else Rank(a) - Rank(b)
  }

  /** Canonical order of names: component by component, a prefix before its extensions. */
  function Compare(a: Name, b: Name): int {
    if a == [] then if b == [] then 0 else -1
    else if b == [] then 1
    else if a[0] == b[0] then Compare(a[1..], b[1..])
    else CompareComponent(a[0], b[0])
  }

  function CompareQueryWithData(query: Name, d: Data): int {
    var isFullName := EndsWithDigest(query);
    var cmp := if isFullName then Compare(query[..|query| - 1], d.name) else Compare(query, d.name);
    if cmp != 0 then cmp
    else if isFullName then CompareComponent(query[|query| - 1], Digest(d.digest))
    else -1
  }

  function CompareDataWithData(a: Data, b: Data): int {
    var cmp := Compare(a.name, b.name);
    if cmp != 0 then cmp else CompareComponent(Digest(a.digest), Digest(b.digest))
  }

  /** What std::set holds or is asked for. */
  datatype Key = Query(name: Name) | Stored(data: Data)

  predicate Less(a: Key, b: Key) {
    if a.Query? then
      if b.Query? then Compare(a.name, b.name) < 0 else CompareQueryWithData(a.name, b.data) < 0
    else
      if b.Query? then CompareQueryWithData(b.name, a.data) > 0 else CompareDataWithData(a.data, b.data) < 0
  }

  function NameOf(k: Key): Name {
    match k
    case Query(name) => name
    case Stored(data) => FullName(data)
  }

  ghost predicate ValidKey(k: Key) {
    match k
    case Query(name) => WellPlaced(name)
    case Stored(data) => NoDigest(data.name)
  }

  lemma {:induction false} CompareAntisymmetric(a: Name, b: Name)
    ensures Compare(a, b) < 0 <==> Compare(b, a) > 0
    ensures Compare(a, b) == 0 <==> a == b
  {
    if a != [] && b != [] && a[0] == b[0] {
      CompareAntisymmetric(a[1..], b[1..]);
      assert a == [a[0]] + a[1..] && b == [b[0]] + b[1..];
    }
  }

  lemma {:induction false} CompareTransitive(a: Name, b: Name, c: Name)
    requires Compare(a, b) <= 0 && Compare(b, c) <= 0
    ensures Compare(a, c) <= 0
    ensures Compare(a, b) < 0 || Compare(b, c) < 0 ==> Compare(a, c) < 0
  {
    if a != [] && b != [] && c != [] && a[0] == b[0] == c[0] {
      CompareTransitive(a[1..], b[1..], c[1..]);
    }
  }

  /** A digest at the end of one or both names does not disturb the order of what is before it. */
  lemma {:induction false} CompareWithDigests(a: Name, b: Name, x: Component, y: Component)
    requires NoDigest(a) && NoDigest(b) && x.Digest? && y.Digest?
    ensures Compare(a, b) != 0 ==> (Compare(a + [x], b + [y]) < 0 <==> Compare(a, b) < 0)
    ensures Compare(a, b) != 0 ==> (Compare(a, b + [y]) < 0 <==> Compare(a, b) < 0)
    ensures a == b ==> Compare(a + [x], b + [y]) == CompareComponent(x, y) && Compare(a, b + [y]) < 0
  {
    assert (a + [x])[0] == if a == [] then x else a[0];
    assert (b + [y])[0] == if b == [] then y else b[0];
    assert a != [] ==> (a + [x])[1..] == a[1..] + [x];
    assert b != [] ==> (b + [y])[1..] == b[1..] + [y];
    if a != [] && b != [] {
      if a[0] == b[0] {
        CompareWithDigests(a[1..], b[1..], x, y);
      }
    } else if a == [] && b == [] {
      assert (a + [x])[1..] == [] && (b + [y])[1..] == [];
    }
  }

  /** The comparisons of the index are canonical order on names, full names for stored Data. */
  lemma LessIsCanonical(a: Key, b: Key)
    requires ValidKey(a) && ValidKey(b)
    ensures Less(a, b) <==> Compare(NameOf(a), NameOf(b)) < 0
  {
    if a.Stored? && b.Stored? {
      CompareAntisymmetric(a.data.name, b.data.name);
      CompareWithDigests(a.data.name, b.data.name, Digest(a.data.digest), Digest(b.data.digest));
    } else if a.Query? && b.Stored? {
      QueryIsCanonical(a.name, b.data);
    } else if a.Stored? && b.Query? {
      QueryIsCanonical(b.name, a.data);
      CompareAntisymmetric(FullName(a.data), b.name);
    }
  }

  lemma QueryIsCanonical(query: Name, d: Data)
    requires WellPlaced(query) && NoDigest(d.name)
    ensures CompareQueryWithData(query, d) < 0 <==> Compare(query, FullName(d)) < 0
    ensures CompareQueryWithData(query, d) > 0 <==> Compare(query, FullName(d)) > 0
  {
    CompareAntisymmetric(query, FullName(d));
    if EndsWithDigest(query) {
      var q := query[..|query| - 1];
      assert query == q + [query[|query| - 1]];
      CompareAntisymmetric(q, d.name);
      CompareWithDigests(q, d.name, query[|query| - 1], Digest(d.digest));
      CompareAntisymmetric(q + [query[|query| - 1]], FullName(d));
    } else {
      CompareAntisymmetric(query, d.name);
      CompareWithDigests(query, d.name, Digest(0), Digest(d.digest));
    }
  }

  /** The least component above. */
  function SuccessorComponent(c: Component): Component {
    match c
    case Digest(value) => Digest(value + 1)
    case Generic(rank) => Generic(rank + 1)
  }

  /** The least name above all extensions of a name. */
  function Successor(name: Name): Name
    requires name != []
  {
    Parent(name) + [SuccessorComponent(name[|name| - 1])]
  }

  /** The extensions of a name are the names from it up to its successor. */
  lemma {:induction false} PrefixRange(p: Name, n: Name)
    requires p != []
    ensures p <= n <==> Compare(n, p) >= 0 && Compare(n, Successor(p)) < 0
  {
    var s := Successor(p);
    if n == [] {
    } else if |p| == 1 {
      assert s == [SuccessorComponent(p[0])];
      assert p == [p[0]] && p[1..] == [] && s[1..] == [];
      assert p <= n <==> n[0] == p[0];
    } else {
      assert s[0] == p[0] && s[1..] == Successor(p[1..]);
      if n[0] == p[0] {
        PrefixRange(p[1..], n[1..]);
        assert p <= n <==> p[1..] <= n[1..] by {
          assert p == [p[0]] + p[1..] && n == [n[0]] + n[1..];
        }
      }
    }
  }

  /** Under a common prefix, the next component decides first. */
  lemma {:induction false} NextComponentDecides(p: Name, m: Name, n: Name)
    requires p <= m && p <= n && |p| < |m| && |p| < |n| && Compare(m, n) <= 0
    ensures CompareComponent(m[|p|], n[|p|]) <= 0
  {
    if p != [] {
      NextComponentDecides(p[1..], m[1..], n[1..]);
    }
  }
}
