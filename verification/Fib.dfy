/** Forwarding Information Base entries on the name tree (table/fib.cpp, fib-entry.cpp). */
module Fib {
  import opened Common
  import opened Names
  import opened NameTree
  import opened TreeTables

  predicate HasFib(t: Tables) {
    t.fib.Some?
  }

  function Insert(nodes: Nodes, prefix: Name): Nodes {
    var t := TablesAt(nodes, prefix);
    if t.fib.Some? then nodes else Attach(nodes, prefix, t.(fib := Some(FibEntry(prefix, [], Some(prefix)))))
  }

  function Erase(nodes: Nodes, prefix: Name): Nodes
    requires LinksOk(nodes)
  {
    if prefix in nodes then Change(nodes, prefix, nodes[prefix].tables.(fib := None)) else nodes
  }

  /** addNextHop before sorting: one next hop for each face. */
  function WithNextHop(nextHops: seq<NextHop>, face: nat, cost: nat): seq<NextHop> {
    if nextHops == [] then [NextHop(face, cost)]
    else if nextHops[0].face == face then [NextHop(face, cost)] + nextHops[1..]
    else [nextHops[0]] + WithNextHop(nextHops[1..], face, cost)
  }

  /** Sorted by cost, in whatever order the sort leaves equal costs. */
  ghost predicate SortedFrom(nextHops: seq<NextHop>, sorted: seq<NextHop>) {
    multiset(sorted) == multiset(nextHops) && forall i, j :: 0 <= i < j < |sorted| ==> sorted[i].cost <= sorted[j].cost
  }

  lemma {:induction false} WithNextHopOk(nextHops: seq<NextHop>, face: nat, cost: nat)
    requires OneHopPerFace(nextHops)
    ensures OneHopPerFace(WithNextHop(nextHops, face, cost))
    ensures forall h :: h in WithNextHop(nextHops, face, cost) <==>
      h == NextHop(face, cost) || (h in nextHops && h.face != face)
  {
    if nextHops != [] {
      var rest := nextHops[1..];
      assert nextHops == [nextHops[0]] + rest;
      assert forall i :: 0 <= i < |rest| ==> rest[i].face != nextHops[0].face;
      if nextHops[0].face != face {
        WithNextHopOk(rest, face, cost);
        var r := WithNextHop(rest, face, cost);
        forall i | 0 <= i < |r| ensures r[i].face != nextHops[0].face {
          assert r[i] in r;
        }
      }
    }
  }

  /** Reordering keeps one next hop for each face. */
  lemma SortedOk(nextHops: seq<NextHop>, sorted: seq<NextHop>)
    requires OneHopPerFace(nextHops) && SortedFrom(nextHops, sorted)
    ensures OneHopPerFace(sorted)
  {
    forall i, j | 0 <= i < j < |sorted| ensures sorted[i].face != sorted[j].face {
      var a, b := sorted[i], sorted[j];
      assert a in multiset(sorted) && b in multiset(sorted);
      if a == b {
        assert sorted == sorted[..j] + [a] + sorted[j + 1..];
        assert sorted[..j][i] == a;
        assert multiset(sorted)[a] >= 2;
        CountOnce(nextHops, a);
        assert false;
      } else {
        var k :| 0 <= k < |nextHops| && nextHops[k] == a;
        var l :| 0 <= l < |nextHops| && nextHops[l] == b;
      }
    }
  }

  lemma {:induction false} CountOnce(nextHops: seq<NextHop>, h: NextHop)
    requires OneHopPerFace(nextHops)
    ensures multiset(nextHops)[h] <= 1
  {
    if nextHops != [] {
      var rest := nextHops[1..];
      assert nextHops == [nextHops[0]] + rest;
      CountOnce(rest, h);
      if nextHops[0] == h {
        assert h !in rest;
      }
    }
  }

  /** Any change of an entry's next hops. */
  function SetNextHops(nodes: Nodes, prefix: Name, nextHops: seq<NextHop>): Nodes {
    if TablesAt(nodes, prefix).fib.None? then nodes
    else WithTables(nodes, prefix, nodes[prefix].tables.(fib := Some(nodes[prefix].tables.fib.value.(nextHops := nextHops))))
  }

  function WithoutFace(nextHops: seq<NextHop>, face: nat): (r: seq<NextHop>)
    ensures forall h :: h in r ==> h in nextHops
  {
    if nextHops == [] then []
    else if nextHops[0].face == face then nextHops[1..]
    else [nextHops[0]] + WithoutFace(nextHops[1..], face)
  }

  /** A FIB entry without a face; it goes with its last next hop. */
  function StripFib(e: FibEntry, face: nat): Option<FibEntry> {
    var nextHops := WithoutFace(e.nextHops, face);
    if nextHops == [] then None else Some(e.(nextHops := nextHops))
  }

  /** Fib::removeNextHop: the FIB entry goes with its last next hop, the name tree entry stays. */
  function RemoveNextHop(nodes: Nodes, prefix: Name, face: nat): Nodes {
    var t := TablesAt(nodes, prefix);
    if t.fib.None? then nodes else WithTables(nodes, prefix, t.(fib := StripFib(t.fib.value, face)))
  }

  /** FibManager::removeNextHop: the name tree entry goes too if nothing is left of it. */
  function UnregisterNextHop(nodes: Nodes, prefix: Name, face: nat): Nodes
    requires LinksOk(nodes)
  {
    var t := TablesAt(nodes, prefix);
    if t.fib.None? then nodes
    else
      var rest := StripFib(t.fib.value, face);
      if rest.None? then Erase(nodes, prefix) else WithTables(nodes, prefix, t.(fib := rest))
  }

  /** Entry::removeNextHop takes out the first next hop to the face; an entry has at most one. */
  lemma WithoutFaceGone(nextHops: seq<NextHop>, face: nat)
    requires OneHopPerFace(nextHops)
    ensures OneHopPerFace(WithoutFace(nextHops, face))
    ensures forall h :: h in WithoutFace(nextHops, face) <==> h in nextHops && h.face != face
  {
    if nextHops != [] {
      assert forall h :: h in nextHops <==> h == nextHops[0] || h in nextHops[1..];
      if nextHops[0].face == face {
        forall h | h in nextHops[1..] ensures h.face != face {
          var i :| 0 <= i < |nextHops[1..]| && nextHops[1..][i] == h;
          assert nextHops[i + 1] == h;
        }
      } else {
        WithoutFaceGone(nextHops[1..], face);
      }
    }
  }

  /** Insertion makes an entry where there was none and changes nothing else. */
  lemma InsertOk(nodes: Nodes, prefix: Name)
    requires Inv(nodes)
    ensures Inv(Insert(nodes, prefix))
    ensures var t := TablesAt(nodes, prefix);
      t.fib.None? ==>
        View(Insert(nodes, prefix)) == View(nodes)[prefix := t.(fib := Some(FibEntry(prefix, [], Some(prefix))))] &&
        NamesWith(Insert(nodes, prefix), HasFib) == NamesWith(nodes, HasFib) + {prefix}
  {
    hide Attach, View, NamesWith, LinksOk;
    var t := TablesAt(nodes, prefix);
    if t.fib.None? {
      var u := t.(fib := Some(FibEntry(prefix, [], Some(prefix))));
      assert TablesOk(prefix, u) by { TablesAtOk(nodes, prefix); }
      AttachOk(nodes, prefix, u);
      NamesWithFollow(nodes, Attach(nodes, prefix, u), prefix, u, HasFib);
    }
  }

  /** Erasure takes the FIB entry of that name away and nothing else. */
  lemma RemovalOk(nodes: Nodes, prefix: Name)
    requires Inv(nodes)
    ensures Inv(Erase(nodes, prefix))
    ensures View(Erase(nodes, prefix)) == Update(View(nodes), prefix, TablesAt(nodes, prefix).(fib := None))
    ensures NamesWith(Erase(nodes, prefix), HasFib) == NamesWith(nodes, HasFib) - {prefix}
  {
    hide View, LinksOk, Change;
    var u := TablesAt(nodes, prefix).(fib := None);
    if prefix in nodes {
      assert TablesOk(prefix, u) by { TablesAtOk(nodes, prefix); }
      ChangeOk(nodes, prefix, u);
      hide NamesWith;
      NamesWithFollow(nodes, Change(nodes, prefix, u), prefix, u, HasFib);
    } else {
      NotInView(nodes, prefix);
    }
  }

  /** Whether something keeps the name tree entry once the face is gone from the FIB entry: another
      next hop, a child, or an entry of another table. */
  ghost predicate Remains(nodes: Nodes, prefix: Name, face: nat)
    requires prefix in nodes && nodes[prefix].tables.fib.Some?
  {
    (exists h :: h in nodes[prefix].tables.fib.value.nextHops && h.face != face) ||
    nodes[prefix].children != [] || HasTableEntries(nodes[prefix].tables.(fib := None))
  }

  lemma StripFibOk(n: Name, t: Tables, face: nat)
    requires TablesOk(n, t) && t.fib.Some?
    ensures var u := t.(fib := StripFib(t.fib.value, face));
      TablesOk(n, u) && (u.fib.Some? <==> exists h :: h in t.fib.value.nextHops && h.face != face)
  {
    WithoutFaceGone(t.fib.value.nextHops, face);
    var rest := WithoutFace(t.fib.value.nextHops, face);
    if rest != [] {
      assert rest[0] in rest;
    }
  }

  /** Fib::removeNextHop keeps links and table entries in order, changes that FIB entry only, and leaves
      no empty entry if and only if something remains. */
  lemma RemoveNextHopOk(nodes: Nodes, prefix: Name, face: nat)
    requires Inv(nodes) && TablesAt(nodes, prefix).fib.Some?
    ensures var r := RemoveNextHop(nodes, prefix, face);
      LinksOk(r) && (forall n :: n in r ==> TablesOk(n, r[n].tables)) &&
      (NoneEmpty(r) <==> Remains(nodes, prefix, face))
    ensures var t := TablesAt(nodes, prefix);
      View(RemoveNextHop(nodes, prefix, face)) == Update(View(nodes), prefix, t.(fib := StripFib(t.fib.value, face)))
  {
    hide LinksOk, TablesOk, StripFib, View, Update;
    InvParts(nodes);
    var t := nodes[prefix].tables;
    StripFibOk(prefix, t, face);
    var r := RemoveNextHop(nodes, prefix, face);
    ViewFollows(nodes, r, prefix, t.(fib := StripFib(t.fib.value, face)));
    WithTablesLinks(nodes, prefix, t.(fib := StripFib(t.fib.value, face)));
    assert NoneEmpty(r) <==> !IsEmpty(r[prefix]);
  }

  /** A FIB with one entry and one next hop: removing that leaves an empty name tree entry. */
  lemma RemoveNextHopLeavesEmpty()
    ensures var nodes := SetNextHops(Insert(map[], []), [], [NextHop(1, 0)]);
      Inv(nodes) && TablesAt(nodes, []).fib.Some? &&
      [] in RemoveNextHop(nodes, [], 1) && IsEmpty(RemoveNextHop(nodes, [], 1)[[]])
  {
    var nodes := SetNextHops(Insert(map[], []), [], [NextHop(1, 0)]);
    var t := NO_TABLES.(fib := Some(FibEntry([], [NextHop(1, 0)], Some([]))));
    assert nodes == map[[] := Nte(None, [], t)];
    assert LinkedUp(nodes, []) && LinkedDown(nodes, []);
  }

  lemma CountFib(nodes: Nodes, n: Name, t: Tables)
    requires n in nodes && (HasFib(t) ==> HasFib(nodes[n].tables))
    ensures |NamesWith(WithTables(nodes, n, t), HasFib)| ==
      |NamesWith(nodes, HasFib)| - if HasFib(nodes[n].tables) && !HasFib(t) then 1 else 0
  {
    var before, after := NamesWith(nodes, HasFib), NamesWith(WithTables(nodes, n, t), HasFib);
    FibMembers(nodes, n, t);
    hide NamesWith, WithTables;
    if HasFib(t) || !HasFib(nodes[n].tables) {
      assert before == after;
    } else {
      assert before == after + {n} && n !in after;
    }
  }

  lemma FibMembers(nodes: Nodes, n: Name, t: Tables)
    requires n in nodes
    ensures forall m :: m in NamesWith(WithTables(nodes, n, t), HasFib) <==>
      if m == n then HasFib(t) else m in NamesWith(nodes, HasFib)
    ensures n in NamesWith(nodes, HasFib) <==> HasFib(nodes[n].tables)
  {
  }

  class Fib {
    const nameTree: NameTree
    var nItems: int

    ghost predicate Valid()
      reads this, nameTree
    {
      Inv(nameTree.nodes) && nItems == |NamesWith(nameTree.nodes, HasFib)|
    }

    constructor (nameTree: NameTree)
      requires nameTree.nodes == map[]
      ensures Valid() && this.nameTree == nameTree
    {
      this.nameTree := nameTree;
      nItems := 0;
      new;
      assert NamesWith(nameTree.nodes, HasFib) == {};
    }

    method InsertEntry(prefix: Name) returns (isNew: bool)
      requires Valid()
      modifies this, nameTree
      ensures Valid()
      ensures nameTree.nodes == Insert(old(nameTree.nodes), prefix)
      ensures isNew <==> TablesAt(old(nameTree.nodes), prefix).fib.None?
    {
      hide Lookup, View, NamesWith;
      InsertOk(nameTree.nodes, prefix);
      LookupTables(nameTree.nodes, prefix);
      if prefix in nameTree.nodes {
        LookupPresent(nameTree.nodes, prefix);
      }
      nameTree.LookupEntry(prefix);
      var t := nameTree.nodes[prefix].tables;
      if t.fib.Some? {
        return false;
      }
      nameTree.nodes := WithTables(nameTree.nodes, prefix, t.(fib := Some(FibEntry(prefix, [], Some(prefix)))));
      assert prefix !in NamesWith(old(nameTree.nodes), HasFib) by { NotYet(old(nameTree.nodes), prefix); }
      nItems := nItems + 1;
      return true;
    }

    /** Erasing by name: right exactly when the name has a FIB entry or no name tree entry at all;
        a name tree entry without a FIB entry makes the item count wrong. */
    method EraseName(prefix: Name)
      requires Valid()
      modifies this, nameTree
      ensures nameTree.nodes == Erase(old(nameTree.nodes), prefix) && Inv(nameTree.nodes)
      ensures Valid() <==> prefix !in old(nameTree.nodes) || old(nameTree.nodes)[prefix].tables.fib.Some?
    {
      hide View, EraseIfEmpty;
      RemovalOk(nameTree.nodes, prefix);
      if prefix !in nameTree.nodes {
        return;
      }
      ghost var before := nameTree.nodes;
      WithTablesLinks(nameTree.nodes, prefix, nameTree.nodes[prefix].tables.(fib := None));
      nameTree.nodes := WithTables(nameTree.nodes, prefix, nameTree.nodes[prefix].tables.(fib := None));
      var _ := nameTree.EraseEntryIfEmpty(prefix, true);
      nItems := nItems - 1;
      Counted(before, nameTree.nodes, prefix);
    }

    /** Fib::removeNextHop, right exactly when something keeps the name tree entry. */
    method RemoveHop(prefix: Name, face: nat)
      requires Valid() && TablesAt(nameTree.nodes, prefix).fib.Some?
      modifies this, nameTree
      ensures nameTree.nodes == RemoveNextHop(old(nameTree.nodes), prefix, face)
      ensures nItems == |NamesWith(nameTree.nodes, HasFib)|
      ensures Valid() <==> Remains(old(nameTree.nodes), prefix, face)
    {
      hide NamesWith, LinksOk, TablesOk, Remains, NoneEmpty, WithTables;
      RemoveNextHopOk(nameTree.nodes, prefix, face);
      var t := nameTree.nodes[prefix].tables;
      var u := t.(fib := StripFib(t.fib.value, face));
      CountFib(nameTree.nodes, prefix, u);
      if u.fib.None? {
        nItems := nItems - 1;
      }
      nameTree.nodes := WithTables(nameTree.nodes, prefix, u);
    }
  }

  /** An input on which the item count goes wrong: no FIB entry, but an entry for a longer name. */
  lemma EraseNameMiscounts()
    ensures var nodes := Insert(map[], [Generic(0)]);
      Inv(nodes) && [] in nodes && nodes[[]].tables.fib.None? &&
      |NamesWith(Erase(nodes, []), HasFib)| == |NamesWith(nodes, HasFib)| == 1
  {
    hide View, LinksOk, Lookup, Change, EraseIfEmpty;
    var empty: Nodes := map[];
    var nodes := Insert(empty, [Generic(0)]);
    assert Inv(empty) by { EmptyTreeOk(); }
    InsertOk(empty, [Generic(0)]);
    assert NamesWith(empty, HasFib) == {};
    LookupOk(empty, [Generic(0)]);
    assert [Generic(0)][..0] == [];
    RemovalOk(nodes, []);
    assert NamesWith(nodes, HasFib) == {[Generic(0)]};
    assert {[Generic(0)]} - {[]} == {[Generic(0)]};
  }

  lemma EmptyTreeOk()
    ensures Inv(map[])
  {
  }

  lemma NotYet(nodes: Nodes, prefix: Name)
    ensures prefix in NamesWith(nodes, HasFib) <==> TablesAt(nodes, prefix).fib.Some?
  {
  }

  lemma Counted(nodes: Nodes, after: Nodes, prefix: Name)
    requires prefix in nodes && NamesWith(after, HasFib) == NamesWith(nodes, HasFib) - {prefix}
    ensures |NamesWith(after, HasFib)| == |NamesWith(nodes, HasFib)| - 1 <==> nodes[prefix].tables.fib.Some?
  {
    NotYet(nodes, prefix);
    if nodes[prefix].tables.fib.None? {
      assert NamesWith(nodes, HasFib) - {prefix} == NamesWith(nodes, HasFib);
    }
  }
}
