/** Cleaning up when a face is removed (table/cleanup.cpp): one pass over all entries, then
    erasure of what became empty, longest names first and without touching ancestors. */
module Cleanup {
  import opened Common
  import opened Names
  import opened NameTree
  import opened TreeTables
  import T = NameTree
  import F = Fib
  import P = Pit

  function StripPit(e: PitEntry, face: nat): PitEntry {
    e.(inRecords := P.WithoutFace(e.inRecords, face), outRecords := P.WithoutFace(e.outRecords, face))
  }

  function StripPits(pits: seq<PitEntry>, face: nat): seq<PitEntry> {
    seq(|pits|, i requires 0 <= i < |pits| => StripPit(pits[i], face))
  }

  /** The table entries of one name without the face. */
  function Strip(t: Tables, face: nat): Tables {
    t.(fib := if t.fib.Some? then F.StripFib(t.fib.value, face) else None, pits := StripPits(t.pits, face))
  }

  /** No table entry refers to the face, and no FIB entry is left without next hops. */
  ghost predicate FreeOf(t: Tables, face: nat) {
    (t.fib.Some? ==> t.fib.value.nextHops != [] && forall h :: h in t.fib.value.nextHops ==> h.face != face) &&
    forall i :: 0 <= i < |t.pits| ==>
      (forall r :: r in t.pits[i].inRecords ==> r.face != face) &&
      (forall r :: r in t.pits[i].outRecords ==> r.face != face)
  }

  /** Exactly the records of the other faces are left. */
  ghost predicate OthersLeft(before: seq<FaceRecord>, after: seq<FaceRecord>, face: nat) {
    forall r :: r in after <==> r in before && r.face != face
  }

  ghost predicate OtherHopsLeft(before: seq<NextHop>, after: seq<NextHop>, face: nat) {
    forall h :: h in after <==> h in before && h.face != face
  }

  /** A PIT entry after removal of a face: Interest and info as they were, and the others' records. */
  ghost predicate FaceGoneFrom(before: PitEntry, after: PitEntry, face: nat) {
    after.name == before.name && after.selectors == before.selectors && after.info == before.info && after.nte == before.nte &&
    OthersLeft(before.inRecords, after.inRecords, face) && OthersLeft(before.outRecords, after.outRecords, face)
  }

  /** The tables of a name after removal of a face: only what referred to the face is gone, and a FIB
      entry stays if and only if it has a next hop to another face. */
  ghost predicate OnlyFaceGone(before: Tables, after: Tables, face: nat) {
    after.measurements == before.measurements && after.strategyChoice == before.strategyChoice &&
    |after.pits| == |before.pits| && (forall i :: 0 <= i < |after.pits| ==> FaceGoneFrom(before.pits[i], after.pits[i], face)) &&
    (after.fib.Some? <==> before.fib.Some? && exists h :: h in before.fib.value.nextHops && h.face != face) &&
    (after.fib.Some? ==>
      after.fib.value.prefix == before.fib.value.prefix && after.fib.value.nte == before.fib.value.nte &&
      OtherHopsLeft(before.fib.value.nextHops, after.fib.value.nextHops, face))
  }

  lemma StripOk(n: Name, t: Tables, face: nat)
    requires TablesOk(n, t)
    ensures TablesOk(n, Strip(t, face)) && FreeOf(Strip(t, face), face) && OnlyFaceGone(t, Strip(t, face), face)
  {
    var u := Strip(t, face);
    if t.fib.Some? {
      F.StripFibOk(n, t, face);
      F.WithoutFaceGone(t.fib.value.nextHops, face);
    }
    forall i | 0 <= i < |t.pits| ensures PitEntryOk(n, u.pits[i]) && FaceGoneFrom(t.pits[i], u.pits[i], face)
      ensures forall r :: r in u.pits[i].inRecords ==> r.face != face
      ensures forall r :: r in u.pits[i].outRecords ==> r.face != face
    {
      assert PitEntryOk(n, t.pits[i]);
      P.WithoutFaceGone(t.pits[i].inRecords, face);
      P.WithoutFaceGone(t.pits[i].outRecords, face);
    }
    forall i, j | 0 <= i < j < |u.pits| ensures !SameInterest(u.pits[i], u.pits[j].name, u.pits[j].selectors) {
      assert !SameInterest(t.pits[i], t.pits[j].name, t.pits[j].selectors);
    }
  }

  /** Inserts into a list sorted by length, behind what is not longer (std::multimap::emplace). */
  function Emplace(names: seq<Name>, n: Name): seq<Name> {
    if names == [] || |n| < |names[0]| then [n] + names else [names[0]] + Emplace(names[1..], n)
  }

  ghost predicate SortedByLength(names: seq<Name>) {
    forall i, j :: 0 <= i < j < |names| ==> |names[i]| <= |names[j]|
  }

  ghost predicate Behind(n: Name, names: seq<Name>) {
    forall i :: 0 <= i < |names| ==> |n| <= |names[i]| && n != names[i]
  }

  lemma PrependOk(n: Name, names: seq<Name>)
    requires SortedByLength(names) && NoDuplicates(names) && Behind(n, names)
    ensures SortedByLength([n] + names) && NoDuplicates([n] + names)
    ensures forall m :: m in [n] + names <==> m == n || m in names
  {
  }

  lemma TailOk(names: seq<Name>)
    requires SortedByLength(names) && NoDuplicates(names) && names != []
    ensures SortedByLength(names[1..]) && NoDuplicates(names[1..]) && Behind(names[0], names[1..])
    ensures forall m :: m in names <==> m == names[0] || m in names[1..]
  {
  }

  lemma {:induction false} EmplaceOk(names: seq<Name>, n: Name)
    requires SortedByLength(names) && NoDuplicates(names) && n !in names
    ensures SortedByLength(Emplace(names, n)) && NoDuplicates(Emplace(names, n))
    ensures forall m :: m in Emplace(names, n) <==> m in names || m == n
  {
    hide SortedByLength, NoDuplicates, Behind;
    if names != [] {
      TailOk(names);
    }
    if names == [] || |n| < |names[0]| {
      assert Behind(n, names) by { AllBehind(n, names); }
      PrependOk(n, names);
    } else {
      EmplaceOk(names[1..], n);
      assert Behind(names[0], Emplace(names[1..], n)) by { StillBehind(names[0], names[1..], n, Emplace(names[1..], n)); }
      PrependOk(names[0], Emplace(names[1..], n));
    }
  }

  lemma AllBehind(n: Name, names: seq<Name>)
    requires n !in names && SortedByLength(names) && (names == [] || |n| < |names[0]|)
    ensures Behind(n, names)
  {
  }

  lemma StillBehind(first: Name, rest: seq<Name>, n: Name, after: seq<Name>)
    requires Behind(first, rest) && |first| <= |n| && first != n
    requires forall m :: m in after <==> m in rest || m == n
    ensures Behind(first, after)
  {
    forall i | 0 <= i < |after| ensures |first| <= |after[i]| && first != after[i] {
      assert after[i] in after;
    }
  }

  /** The tree after the pass: every entry without the face. */
  function Visited(nodes: Nodes, face: nat, todo: set<Name>): (r: Nodes)
    ensures r.Keys == nodes.Keys
  {
    map n | n in nodes :: if n in todo then nodes[n] else nodes[n].(tables := Strip(nodes[n].tables, face))
  }

  /** Erases what is empty among the names, from the last to the first, sparing ancestors. */
  function EraseAll(nodes: Nodes, names: seq<Name>): (r: Nodes)
    requires LinksOk(nodes)
    ensures LinksOk(r)
  {
    if names == [] then nodes
    else
      var last := names[|names| - 1];
      if last !in nodes then EraseAll(nodes, names[..|names| - 1])
      else
        EraseOne(nodes, last);
        EraseAll(EraseIfEmpty(nodes, last, false), names[..|names| - 1])
  }

  /** Erasing one entry without its ancestors can make only its parent empty. */
  lemma EraseOne(nodes: Nodes, n: Name)
    requires LinksOk(nodes) && n in nodes
    ensures var after := EraseIfEmpty(nodes, n, false);
      LinksOk(after) && Prunes(nodes, after, n) && (n in after ==> after == nodes && !IsEmpty(nodes[n])) &&
      (forall m :: m in nodes && m != n ==> m in after) &&
      (forall m :: m in after && IsEmpty(after[m]) ==> IsEmpty(nodes[m]) || (n != [] && m == Parent(n)))
  {
    T.EraseOk(nodes, n, false);
    if IsEmpty(nodes[n]) {
      UnlinkOk(nodes, n);
      UnlinkShape(nodes, n);
    }
  }

  /** The names collected for erasure: longest last; no table entries; and an entry without table
      entries that is not collected has children and is no shorter than any name collected. */
  ghost predicate Collected(nodes: Nodes, names: seq<Name>) {
    SortedByLength(names) && NoDuplicates(names) &&
    (forall i :: 0 <= i < |names| ==> names[i] in nodes && !HasTableEntries(nodes[names[i]].tables)) &&
    forall m :: m in nodes && !HasTableEntries(nodes[m].tables) && m !in names ==>
      nodes[m].children != [] && forall i :: 0 <= i < |names| ==> |names[i]| <= |m|
  }

  /** Longest first, one erasure for each name suffices: no empty entry is left. */
  lemma {:induction false} EraseAllOk(nodes: Nodes, names: seq<Name>)
    requires LinksOk(nodes) && Collected(nodes, names)
    ensures var r := EraseAll(nodes, names);
      NoneEmpty(r) && (forall n :: n in r ==> n in nodes) && forall n :: TablesAt(r, n) == TablesAt(nodes, n)
  {
    hide LinksOk, EraseIfEmpty, Collected;
    if names == [] {
      NothingCollected(nodes);
    } else {
      var init, last := names[..|names| - 1], names[|names| - 1];
      assert last in nodes by { LastCollected(nodes, names); }
      EraseOne(nodes, last);
      CollectedStep(nodes, names);
      EraseAllOk(EraseIfEmpty(nodes, last, false), init);
    }
  }

  lemma NothingCollected(nodes: Nodes)
    requires Collected(nodes, [])
    ensures NoneEmpty(nodes)
  {
  }

  lemma LastCollected(nodes: Nodes, names: seq<Name>)
    requires Collected(nodes, names) && names != []
    ensures names[|names| - 1] in nodes && !HasTableEntries(nodes[names[|names| - 1]].tables)
  {
  }

  lemma InitMembers(names: seq<Name>)
    requires SortedByLength(names) && NoDuplicates(names) && names != []
    ensures var init, last := names[..|names| - 1], names[|names| - 1];
      SortedByLength(init) && NoDuplicates(init) && last !in init &&
      (forall m :: m in names <==> m in init || m == last) && forall i :: 0 <= i < |init| ==> |init[i]| <= |last|
  {
    assert names == names[..|names| - 1] + [names[|names| - 1]];
  }

  /** After erasing the longest name collected, the others are those to look at. */
  lemma CollectedStep(nodes: Nodes, names: seq<Name>)
    requires LinksOk(nodes) && Collected(nodes, names) && names != [] && names[|names| - 1] in nodes
    ensures Collected(EraseIfEmpty(nodes, names[|names| - 1], false), names[..|names| - 1])
  {
    hide LinksOk, EraseIfEmpty, SortedByLength, NoDuplicates, Prunes;
    var init, last := names[..|names| - 1], names[|names| - 1];
    var after := EraseIfEmpty(nodes, last, false);
    InitMembers(names);
    EraseOne(nodes, last);
    assert forall n :: n in after ==> n in nodes && after[n].tables == nodes[n].tables by { Pruned(nodes, after, last); }
    forall m | m in after && !HasTableEntries(after[m].tables) && m !in init
      ensures after[m].children != [] && forall i :: 0 <= i < |init| ==> |init[i]| <= |m|
    {
      if m != last {
        assert |names[|init|]| <= |m| && nodes[m].children != [];
      }
    }
  }

  lemma Pruned(nodes: Nodes, after: Nodes, name: Name)
    requires Prunes(nodes, after, name)
    ensures forall n :: n in after ==> n in nodes && after[n].tables == nodes[n].tables
    ensures forall n :: n in nodes && n !in after ==> !HasTableEntries(nodes[n].tables)
  {
  }

  /** Removing a face leaves a tree in order, without empty entries, in which nothing refers to
      the face and everything else is as before; whatever the order of the enumeration. */
  lemma CleanupOk(nodes: Nodes, face: nat, names: seq<Name>)
    requires Inv(nodes) && LinksOk(Visited(nodes, face, {})) && Collected(Visited(nodes, face, {}), names)
    ensures var after := EraseAll(Visited(nodes, face, {}), names);
      Inv(after) && (forall n :: TablesAt(after, n) == Strip(TablesAt(nodes, n), face)) &&
      (forall n :: OnlyFaceGone(TablesAt(nodes, n), TablesAt(after, n), face)) &&
      forall n :: n in after ==> FreeOf(after[n].tables, face)
  {
    hide LinksOk, TablesOk, FreeOf, OnlyFaceGone;
    var visited := Visited(nodes, face, {});
    var after := EraseAll(visited, names);
    EraseAllOk(visited, names);
    forall n ensures TablesAt(after, n) == Strip(TablesAt(nodes, n), face)
      ensures OnlyFaceGone(TablesAt(nodes, n), TablesAt(after, n), face)
    {
      assert TablesAt(after, n) == TablesAt(visited, n);
      assert Strip(NO_TABLES, face) == NO_TABLES;
      TablesAtOk(nodes, n);
      StripOk(n, TablesAt(nodes, n), face);
    }
    forall n | n in after ensures TablesOk(n, after[n].tables) && FreeOf(after[n].tables, face) {
      assert TablesOk(n, nodes[n].tables);
      StripOk(n, nodes[n].tables, face);
      assert TablesAt(after, n) == after[n].tables;
    }
  }

  lemma VisitedLinks(nodes: Nodes, face: nat, todo: set<Name>)
    requires LinksOk(nodes)
    ensures LinksOk(Visited(nodes, face, todo))
  {
    hide NoDuplicates;
    var r := Visited(nodes, face, todo);
    forall n | n in r ensures LinkedUp(r, n) && LinkedDown(r, n) {
      LinksAt(nodes, n);
    }
  }

  /** The list for erasure after a full pass. */
  lemma AllCollected(nodes: Nodes, names: seq<Name>)
    requires SortedByLength(names) && NoDuplicates(names)
    requires forall n :: n in names <==> n in nodes && !HasTableEntries(nodes[n].tables)
    ensures Collected(nodes, names)
  {
    forall i | 0 <= i < |names| ensures names[i] in nodes && !HasTableEntries(nodes[names[i]].tables) {
      assert names[i] in names;
    }
  }

  lemma OneVisited(nodes: Nodes, face: nat, todo: set<Name>, n: Name)
    requires n in todo && todo <= nodes.Keys
    ensures var r := Visited(nodes, face, todo);
      r[n] == nodes[n] &&
      Visited(nodes, face, todo - {n}) == WithTables(r, n, Strip(nodes[n].tables, face)) &&
      (F.HasFib(Strip(nodes[n].tables, face)) ==> F.HasFib(nodes[n].tables))
  {
  }

  method VisitEntry(nt: NameTree, fib: F.Fib, nte: Name, face: nat)
    requires nte in nt.nodes && fib.nItems == |NamesWith(nt.nodes, F.HasFib)|
    modifies nt, fib`nItems
    ensures nt.nodes == WithTables(old(nt.nodes), nte, Strip(old(nt.nodes)[nte].tables, face))
    ensures fib.nItems == |NamesWith(nt.nodes, F.HasFib)|
  {
    hide NamesWith, WithTables;
    var t := nt.nodes[nte].tables;
    var u := t;
    if t.fib.Some? {
      u := u.(fib := F.StripFib(t.fib.value, face));
      if u.fib.None? {
        fib.nItems := fib.nItems - 1;
      }
    }
    u := u.(pits := StripPits(t.pits, face));
    assert u == Strip(t, face);
    F.CountFib(nt.nodes, nte, u);
    nt.nodes := WithTables(nt.nodes, nte, u);
  }

  /** One pass over all entries in no particular order, as over the buckets of the hash table. */
  method Visit(nt: NameTree, fib: F.Fib, face: nat) returns (maybeEmpty: seq<Name>)
    requires fib.nameTree == nt && fib.Valid()
    modifies nt, fib`nItems
    ensures nt.nodes == Visited(old(nt.nodes), face, {}) && LinksOk(nt.nodes)
    ensures fib.nItems == |NamesWith(nt.nodes, F.HasFib)|
    ensures Collected(nt.nodes, maybeEmpty)
  {
    hide LinksOk, TablesOk, NamesWith, SortedByLength, NoDuplicates, Emplace, NoneEmpty, Strip, HasTableEntries;
    ghost var before := nt.nodes;
    var todo := nt.nodes.Keys;
    assert nt.nodes == Visited(before, face, todo);
    maybeEmpty := [];
    SortedEmpty();
    NoDuplicatesEmpty<Name>();
    while todo != {}
      invariant todo <= before.Keys && nt.nodes == Visited(before, face, todo)
      invariant fib.nItems == |NamesWith(nt.nodes, F.HasFib)|
      invariant SortedByLength(maybeEmpty) && NoDuplicates(maybeEmpty)
      invariant forall n :: n in maybeEmpty <==> n in before && n !in todo && !HasTableEntries(nt.nodes[n].tables)
      decreases |todo|
    {
      var nte :| nte in todo;
      OneVisited(before, face, todo, nte);
      VisitEntry(nt, fib, nte, face);
      todo := todo - {nte};
      if !HasTableEntries(nt.nodes[nte].tables) {
        EmplaceOk(maybeEmpty, nte);
        maybeEmpty := Emplace(maybeEmpty, nte);
      }
    }
    VisitedLinks(before, face, {}) by { InvParts(before); }
    AllCollected(nt.nodes, maybeEmpty);
  }

  lemma SortedEmpty()
    ensures SortedByLength([])
  {
  }

  /** Removes a face from FIB and PIT. */
  method CleanupOnFaceRemoval(nt: NameTree, fib: F.Fib, face: nat)
    requires fib.nameTree == nt && fib.Valid()
    modifies nt, fib`nItems
    ensures fib.Valid()
    ensures forall n :: TablesAt(nt.nodes, n) == Strip(TablesAt(old(nt.nodes), n), face)
    ensures forall n :: OnlyFaceGone(TablesAt(old(nt.nodes), n), TablesAt(nt.nodes, n), face)
    ensures forall n :: n in nt.nodes ==> FreeOf(nt.nodes[n].tables, face)
  {
    hide LinksOk, TablesOk, NamesWith, FreeOf, OnlyFaceGone, Visited, Collected, Strip, NoneEmpty;
    ghost var before := nt.nodes;
    var maybeEmpty := Visit(nt, fib, face);
    ghost var visited := nt.nodes;
    CleanupOk(before, face, maybeEmpty);
    EraseAllOk(visited, maybeEmpty);
    var i := |maybeEmpty|;
    assert maybeEmpty[..i] == maybeEmpty;
    while i > 0
      invariant 0 <= i <= |maybeEmpty| && LinksOk(nt.nodes)
      invariant EraseAll(nt.nodes, maybeEmpty[..i]) == EraseAll(visited, maybeEmpty)
      invariant fib.nItems == |NamesWith(visited, F.HasFib)|
    {
      i := i - 1;
      assert maybeEmpty[..i + 1][..i] == maybeEmpty[..i];
      if maybeEmpty[i] in nt.nodes {
        EraseOne(nt.nodes, maybeEmpty[i]);
        var _ := nt.EraseEntryIfEmpty(maybeEmpty[i], false);
      }
    }
    assert maybeEmpty[..0] == [] && nt.nodes == EraseAll(visited, maybeEmpty);
    SameFib(visited, nt.nodes);
  }

  lemma SameFib(a: Nodes, b: Nodes)
    requires forall n :: TablesAt(b, n) == TablesAt(a, n)
    ensures NamesWith(a, F.HasFib) == NamesWith(b, F.HasFib)
  {
    forall n ensures n in NamesWith(a, F.HasFib) <==> n in NamesWith(b, F.HasFib) {
      assert n in NamesWith(a, F.HasFib) <==> F.HasFib(TablesAt(a, n));
      assert n in NamesWith(b, F.HasFib) <==> F.HasFib(TablesAt(b, n));
    }
  }
}
