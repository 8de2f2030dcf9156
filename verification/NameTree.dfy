/** The name tree: entries for names and all their prefixes, linked to parent and children, each
    carrying the table entries attached to it (table/name-tree.cpp, name-tree-entry.cpp).
    An entry is addressed by its name, which module Hashtable shows to be unique. */
module NameTree {
  import opened Common
  import opened Names

  datatype NextHop = NextHop(face: nat, cost: nat)

  /** In- or out-record of a PIT entry, with the StrategyInfo stored on it. */
  datatype FaceRecord = FaceRecord(face: nat, info: Option<nat>)

  datatype FibEntry = FibEntry(prefix: Name, nextHops: seq<NextHop>, nte: Option<Name>)

  datatype PitEntry = PitEntry(name: Name, selectors: nat, inRecords: seq<FaceRecord>,
                               outRecords: seq<FaceRecord>, info: Option<nat>, nte: Option<Name>)

  datatype MeasurementsEntry = MeasurementsEntry(name: Name, expiry: int, info: Option<nat>, nte: Option<Name>)

  datatype StrategyChoiceEntry = StrategyChoiceEntry(prefix: Name, strategy: nat, nte: Option<Name>)

  /** The table entries attached to one name tree entry. */
  datatype Tables = Tables(fib: Option<FibEntry>, pits: seq<PitEntry>,
                           measurements: Option<MeasurementsEntry>, strategyChoice: Option<StrategyChoiceEntry>)

  const NO_TABLES: Tables := Tables(None, [], None, None)

  predicate HasTableEntries(t: Tables) {
    t.fib.Some? || t.pits != [] || t.measurements.Some? || t.strategyChoice.Some?
  }

  datatype Nte = Nte(parent: Option<Name>, children: seq<Name>, tables: Tables)

  type Nodes = map<Name, Nte>

  predicate IsEmpty(e: Nte) {
    e.children == [] && !HasTableEntries(e.tables)
  }

  ghost predicate OneHopPerFace(nextHops: seq<NextHop>) {
    forall i, j :: 0 <= i < j < |nextHops| ==> nextHops[i].face != nextHops[j].face
  }

  ghost predicate OneRecordPerFace(records: seq<FaceRecord>) {
    forall i, j :: 0 <= i < j < |records| ==> records[i].face != records[j].face
  }

  /** The back link of every attached table entry leads to its name tree entry, and the table
      entry belongs under that name; a PIT entry whose name ends with a digest is attached one
      level up. No two PIT entries agree in name and selectors, and faces do not repeat. */
  ghost predicate TablesOk(n: Name, t: Tables) {
    (t.fib.Some? ==> t.fib.value.nte == Some(n) && t.fib.value.prefix == n && OneHopPerFace(t.fib.value.nextHops)) &&
    (t.measurements.Some? ==> t.measurements.value.nte == Some(n) && t.measurements.value.name == n) &&
    (t.strategyChoice.Some? ==> t.strategyChoice.value.nte == Some(n) && t.strategyChoice.value.prefix == n) &&
    (forall i :: 0 <= i < |t.pits| ==> PitEntryOk(n, t.pits[i])) &&
    (forall i, j :: 0 <= i < j < |t.pits| ==> !SameInterest(t.pits[i], t.pits[j].name, t.pits[j].selectors))
  }

  ghost predicate PitEntryOk(n: Name, e: PitEntry) {
    e.nte == Some(n) && NteName(e.name) == n && OneRecordPerFace(e.inRecords) && OneRecordPerFace(e.outRecords)
  }

  predicate SameInterest(e: PitEntry, name: Name, selectors: nat) {
    e.name == name && e.selectors == selectors
  }

  /** The name tree entry a PIT entry is attached to. */
  function NteName(interestName: Name): Name {
    if EndsWithDigest(interestName) then Parent(interestName) else interestName
  }

  /** Prefix-closed, with parent and child links mutually inverse. */
  ghost predicate LinksOk(nodes: Nodes) {
    forall n {:trigger LinkedUp(nodes, n)} {:trigger LinkedDown(nodes, n)} ::
      n in nodes ==> LinkedUp(nodes, n) && LinkedDown(nodes, n)
  }

  ghost predicate LinkedUp(nodes: Nodes, n: Name)
    requires n in nodes
  {
    if n == [] then nodes[n].parent.None?
    else Parent(n) in nodes && nodes[n].parent == Some(Parent(n)) && n in nodes[Parent(n)].children
  }

  ghost predicate LinkedDown(nodes: Nodes, n: Name)
    requires n in nodes
  {
    NoDuplicates(nodes[n].children) &&
    forall c :: c in nodes[n].children ==> c in nodes && c != [] && Parent(c) == n
  }

  ghost predicate NoneEmpty(nodes: Nodes) {
    forall n :: n in nodes ==> !IsEmpty(nodes[n])
  }

  /** What every operation keeps. */
  ghost predicate Inv(nodes: Nodes) {
    LinksOk(nodes) && NoneEmpty(nodes) && forall n :: n in nodes ==> TablesOk(n, nodes[n].tables)
  }

  /** A fresh entry, linked under its parent. */
  function Link(nodes: Nodes, name: Name): Nodes
    requires name !in nodes && (name == [] || Parent(name) in nodes)
  {
    if name == [] then nodes[name := Nte(None, [], NO_TABLES)]
    else
      var p := nodes[Parent(name)];
      nodes[name := Nte(Some(Parent(name)), [], NO_TABLES)][Parent(name) := p.(children := p.children + [name])]
  }

  /** Makes sure that the name and all its prefixes have entries. */
  function Lookup(nodes: Nodes, name: Name): (r: Nodes)
    ensures name in r
  {
    var base := if name == [] then nodes else Lookup(nodes, Parent(name));
    if name in base then base else Link(base, name)
  }

  /** Takes an entry out of the tree. */
  function Unlink(nodes: Nodes, name: Name): Nodes
    requires name in nodes && (name == [] || Parent(name) in nodes)
  {
    if name == [] then nodes - {name}
    else
      var p := nodes[Parent(name)];
      nodes[Parent(name) := p.(children := Remove(p.children, name))] - {name}
  }

  /** Removes an empty entry, and then every ancestor that became empty. */
  function EraseIfEmpty(nodes: Nodes, name: Name, canEraseAncestors: bool): Nodes
    requires LinksOk(nodes) && name in nodes
    decreases |name|
  {
    if !IsEmpty(nodes[name]) then nodes
    else
      UnlinkOk(nodes, name);
      var rest := Unlink(nodes, name);
      if canEraseAncestors && name != [] then EraseIfEmpty(rest, Parent(name), true) else rest
  }

  function WithTables(nodes: Nodes, name: Name, t: Tables): Nodes
    requires name in nodes
  {
    nodes[name := nodes[name].(tables := t)]
  }

  /** Removing a childless entry leaves the links of the others right. */
  lemma UnlinkOk(nodes: Nodes, name: Name)
    requires LinksOk(nodes) && name in nodes && nodes[name].children == []
    ensures LinkedUp(nodes, name) && LinksOk(Unlink(nodes, name))
    ensures name != [] ==> Parent(name) in Unlink(nodes, name)
  {
    assert LinkedUp(nodes, name);
    var rest := Unlink(nodes, name);
    if name != [] {
      assert LinkedDown(nodes, Parent(name));
      RemoveMembers(nodes[Parent(name)].children, name);
    }
    forall n | n in rest ensures LinkedUp(rest, n) && LinkedDown(rest, n) {
      assert n in nodes && LinkedUp(nodes, n) && LinkedDown(nodes, n);
    }
  }

  /** A new entry leaves the links of the others right. */
  lemma LinkOk(nodes: Nodes, name: Name)
    requires LinksOk(nodes) && name !in nodes && (name == [] || Parent(name) in nodes)
    ensures LinksOk(Link(nodes, name)) && LinkedUp(Link(nodes, name), name)
  {
    hide LinkedUp, LinkedDown, NoDuplicates;
    var after := Link(nodes, name);
    assert nodes.Keys + {name} == after.Keys;
    forall n | n in after ensures LinkedUp(after, n) && LinkedDown(after, n) {
      LinkedAfter(nodes, name, n);
    }
  }

  lemma LinkedAfter(nodes: Nodes, name: Name, n: Name)
    requires LinksOk(nodes) && name !in nodes && (name == [] || Parent(name) in nodes)
    requires n in nodes || n == name
    ensures n in Link(nodes, name) && LinkedUp(Link(nodes, name), n) && LinkedDown(Link(nodes, name), n)
  {
    hide NoDuplicates, Link;
    LinkShape(nodes, name, n);
    if n == name {
      NoDuplicatesEmpty<Name>();
      if name != [] {
        LinkShape(nodes, name, Parent(name));
      }
    } else {
      assert LinkedUp(nodes, n) && LinkedDown(nodes, n);
      if n != [] {
        LinkShape(nodes, name, Parent(n));
      }
      forall c | c in Link(nodes, name)[n].children ensures c in Link(nodes, name) && c != [] && Parent(c) == n {
        LinkShape(nodes, name, c);
      }
    }
  }

  lemma LinkShape(nodes: Nodes, name: Name, n: Name)
    requires LinksOk(nodes) && name !in nodes && (name == [] || Parent(name) in nodes)
    requires n in nodes || n == name
    ensures n in Link(nodes, name)
    ensures var after := Link(nodes, name);
      if n == name then after[n] == Nte(if name == [] then None else Some(Parent(name)), [], NO_TABLES)
      else after[n].parent == nodes[n].parent && after[n].tables == nodes[n].tables &&
           (NoDuplicates(nodes[n].children) ==> NoDuplicates(after[n].children)) &&
           forall c :: c in after[n].children <==> c in nodes[n].children || (name != [] && n == Parent(name) && c == name)
    ensures name != [] ==> name in Link(nodes, name)[Parent(name)].children
  {
    if n != name && name != [] && n == Parent(name) {
      assert LinkedDown(nodes, n);
      AppendMembers(nodes[n].children, name);
    }
  }

  lemma NoDuplicatesEmpty<T(!new)>()
    ensures NoDuplicates<T>([])
  {
  }

  /** What looking a name up adds: entries for the missing prefixes, without table entries;
      whatever was there keeps its tables. */
  ghost predicate Extends(nodes: Nodes, after: Nodes, name: Name) {
    (forall n :: n in nodes ==> n in after && after[n].tables == nodes[n].tables) &&
    (forall n :: n in after && n !in nodes ==> n <= name && after[n].tables == NO_TABLES) &&
    (forall k :: 0 <= k <= |name| ==> name[..k] in after) &&
    (forall n :: n in after && IsEmpty(after[n]) ==> n == name || (n in nodes && IsEmpty(nodes[n])))
  }

  lemma {:induction false} LookupOk(nodes: Nodes, name: Name)
    requires LinksOk(nodes)
    ensures LinksOk(Lookup(nodes, name)) && Extends(nodes, Lookup(nodes, name), name)
  {
    if name == [] {
      assert forall k :: 0 <= k <= |name| ==> name[..k] == name;
      if name !in nodes {
        LinkOk(nodes, name);
      }
    } else {
      LookupOk(nodes, Parent(name));
      var base := Lookup(nodes, Parent(name));
      assert Parent(name)[..|name| - 1] == Parent(name);
      if name !in base {
        LinkOk(base, name);
      }
      LookupExtends(nodes, base, name);
    }
  }

  lemma LookupExtends(nodes: Nodes, base: Nodes, name: Name)
    requires name != [] && Extends(nodes, base, Parent(name)) && Parent(name) in base && LinksOk(base)
    ensures Extends(nodes, if name in base then base else Link(base, name), name)
  {
    if name in base {
      ExtendsPresent(nodes, base, name);
    } else {
      ExtendsLinked(nodes, base, name);
    }
  }

  lemma PrefixesIn(base: Nodes, after: Nodes, name: Name)
    requires name != [] && name in after && forall k :: 0 <= k <= |name| - 1 ==> Parent(name)[..k] in base
    requires forall n :: n in base ==> n in after
    ensures forall k :: 0 <= k <= |name| ==> name[..k] in after
  {
    forall k | 0 <= k <= |name| ensures name[..k] in after {
      if k == |name| {
        assert name[..k] == name;
      } else {
        assert name[..k] == Parent(name)[..k];
      }
    }
  }

  lemma ExtendsPresent(nodes: Nodes, base: Nodes, name: Name)
    requires name != [] && Extends(nodes, base, Parent(name)) && LinksOk(base) && name in base
    ensures Extends(nodes, base, name)
  {
    hide NoDuplicates, LinksOk;
    LinksAt(base, name);
    PrefixesIn(base, base, name);
    assert !IsEmpty(base[Parent(name)]);
  }

  lemma ExtendsLinked(nodes: Nodes, base: Nodes, name: Name)
    requires name != [] && Extends(nodes, base, Parent(name)) && LinksOk(base) && name !in base && Parent(name) in base
    ensures Extends(nodes, Link(base, name), name)
  {
    hide NoDuplicates, LinksOk;
    var after := Link(base, name);
    LinkedShapes(base, name);
    hide Link;
    PrefixesIn(base, after, name);
    assert forall n :: n in after && n !in nodes ==> n <= name && after[n].tables == NO_TABLES;
  }

  lemma LinkedShapes(base: Nodes, name: Name)
    requires name != [] && name !in base && Parent(name) in base
    ensures var after := Link(base, name);
      (forall n :: n in after <==> n in base || n == name) && after[name].tables == NO_TABLES && !IsEmpty(after[Parent(name)]) &&
      (forall n :: n in base ==> after[n].tables == base[n].tables) &&
      forall n :: n in base && n != Parent(name) ==> after[n] == base[n]
  {
  }

  lemma LinksAt(nodes: Nodes, n: Name)
    requires LinksOk(nodes) && n in nodes
    ensures LinkedUp(nodes, n) && LinkedDown(nodes, n)
  {
  }

  /** No entry is empty, except possibly this one. */
  ghost predicate OnlyEmpty(nodes: Nodes, name: Name) {
    forall n :: n in nodes && IsEmpty(nodes[n]) ==> n == name
  }

  /** What erasing removes: prefixes of the name that carry nothing. */
  ghost predicate Prunes(nodes: Nodes, after: Nodes, name: Name) {
    (forall n :: n in after ==> n in nodes && after[n].tables == nodes[n].tables) &&
    (forall n :: n in nodes && n !in after ==> n <= name && !HasTableEntries(nodes[n].tables))
  }

  lemma UnlinkShape(nodes: Nodes, name: Name)
    requires LinksOk(nodes) && name in nodes && IsEmpty(nodes[name])
    requires name == [] || Parent(name) in nodes
    ensures Prunes(nodes, Unlink(nodes, name), name) && name !in Unlink(nodes, name)
    ensures forall n :: n in nodes && n != name && (name == [] || n != Parent(name)) ==>
      n in Unlink(nodes, name) && Unlink(nodes, name)[n] == nodes[n]
  {
  }

  lemma {:induction false} EraseOk(nodes: Nodes, name: Name, canEraseAncestors: bool)
    requires LinksOk(nodes) && name in nodes
    ensures var r := EraseIfEmpty(nodes, name, canEraseAncestors);
      LinksOk(r) && Prunes(nodes, r, name) &&
      (canEraseAncestors && OnlyEmpty(nodes, name) ==> NoneEmpty(r))
    decreases |name|
  {
    hide Unlink;
    if IsEmpty(nodes[name]) {
      UnlinkOk(nodes, name);
      UnlinkShape(nodes, name);
      var rest := Unlink(nodes, name);
      if canEraseAncestors && name != [] {
        EraseOk(rest, Parent(name), true);
        assert OnlyEmpty(nodes, name) ==> OnlyEmpty(rest, Parent(name));
      }
    }
  }

  /** In a tree without empty entries, the entries are exactly the prefixes of the names that
      table entries are attached to. */
  lemma EntriesAreUsedPrefixes(nodes: Nodes)
    requires LinksOk(nodes) && NoneEmpty(nodes)
    ensures forall n :: n in nodes <==> exists x :: x in nodes && HasTableEntries(nodes[x].tables) && n <= x
  {
    hide LinksOk, NoneEmpty;
    forall n | n in nodes ensures exists x :: x in nodes && HasTableEntries(nodes[x].tables) && n <= x {
      var x := UsedBelow(nodes, n, Longer(nodes, n));
      assert n <= x;
    }
    forall x, n | x in nodes && HasTableEntries(nodes[x].tables) && n <= x ensures n in nodes {
      PrefixClosed(nodes, x, |n|);
      assert n == x[..|n|];
    }
  }

  lemma {:induction false} PrefixClosed(nodes: Nodes, n: Name, k: nat)
    requires LinksOk(nodes) && n in nodes && k <= |n|
    ensures n[..k] in nodes
  {
    if k == |n| {
      assert n[..k] == n;
    } else {
      LinksAt(nodes, n);
      PrefixClosed(nodes, Parent(n), k);
      assert Parent(n)[..k] == n[..k];
    }
  }

  /** Names in the tree that are longer than n. */
  ghost function Longer(nodes: Nodes, n: Name): set<Name> {
    set m | m in nodes && |m| > |n|
  }

  /** Walking down from any entry ends at one with table entries. */
  lemma {:induction false} UsedBelow(nodes: Nodes, n: Name, longer: set<Name>) returns (x: Name)
    requires LinksOk(nodes) && NoneEmpty(nodes) && n in nodes && longer == Longer(nodes, n)
    ensures x in nodes && HasTableEntries(nodes[x].tables) && n <= x
    decreases longer
  {
    if HasTableEntries(nodes[n].tables) {
      x := n;
    } else {
      var c := nodes[n].children[0];
      LinksAt(nodes, n);
      assert c in nodes[n].children;
      assert c in longer && c !in Longer(nodes, c) && Longer(nodes, c) <= longer;
      x := UsedBelow(nodes, c, Longer(nodes, c));
    }
  }

  class NameTree {
    var nodes: Nodes

    constructor ()
      ensures nodes == map[]
    {
      nodes := map[];
    }

    method SetParent(name: Name, parent: Name)
      requires name in nodes && parent in nodes && name != parent
      modifies this
      ensures nodes == old(nodes)[name := old(nodes)[name].(parent := Some(parent))]
                                 [parent := old(nodes)[parent].(children := old(nodes)[parent].children + [name])]
    {
      nodes := nodes[name := nodes[name].(parent := Some(parent))];
      nodes := nodes[parent := nodes[parent].(children := nodes[parent].children + [name])];
    }

    method UnsetParent(name: Name)
      requires name in nodes && nodes[name].parent.Some? && nodes[name].parent.value in nodes
      requires nodes[name].parent.value != name
      modifies this
      ensures var p := old(nodes)[name].parent.value;
        nodes == old(nodes)[p := old(nodes)[p].(children := Remove(old(nodes)[p].children, name))]
                           [name := old(nodes)[name].(parent := None)]
    {
      var p := nodes[name].parent.value;
      nodes := nodes[p := nodes[p].(children := Remove(nodes[p].children, name))];
      nodes := nodes[name := nodes[name].(parent := None)];
    }

    /** A fresh entry under its parent; all links are mutual again. */
    method AddEntry(name: Name, parent: Option<Name>)
      requires LinksOk(nodes) && name !in nodes
      requires if name == [] then parent.None? else parent == Some(Parent(name)) && Parent(name) in nodes
      modifies this
      ensures nodes == Link(old(nodes), name) && LinksOk(nodes)
    {
      hide LinksOk;
      LinkOk(nodes, name);
      nodes := nodes[name := Nte(None, [], NO_TABLES)];
      if parent.Some? {
        SetParent(name, parent.value);
      }
      assert nodes == Link(old(nodes), name);
    }

    /** An empty entry goes; nothing links to it any more. */
    method DropEntry(name: Name) returns (parent: Option<Name>)
      requires LinksOk(nodes) && name in nodes && IsEmpty(nodes[name])
      modifies this
      ensures LinkedUp(old(nodes), name) && nodes == Unlink(old(nodes), name) && LinksOk(nodes) && name !in nodes
      ensures |nodes| == |old(nodes)| - 1
      ensures if name == [] then parent.None? else parent == Some(Parent(name)) && Parent(name) in nodes
    {
      hide LinksOk;
      UnlinkOk(nodes, name);
      parent := nodes[name].parent;
      if parent.Some? {
        UnsetParent(name);
      }
      Shrinks(old(nodes), name);
      assert (nodes - {name}).Keys == (old(nodes) - {name}).Keys;
      nodes := nodes - {name};
      assert nodes == Unlink(old(nodes), name);
    }

    /** One pass over the prefixes, shortest first. */
    method LookupEntry(name: Name)
      requires LinksOk(nodes)
      modifies this
      ensures nodes == Lookup(old(nodes), name)
    {
      var parent: Option<Name> := None;
      for prefixLen := 0 to |name| + 1
        invariant LinksOk(nodes)
        invariant prefixLen == 0 ==> nodes == old(nodes) && parent == None
        invariant prefixLen > 0 ==> nodes == Lookup(old(nodes), name[..prefixLen - 1]) && parent == Some(name[..prefixLen - 1])
      {
        var key := name[..prefixLen];
        assert prefixLen > 0 ==> Parent(key) == name[..prefixLen - 1];
        assert Lookup(old(nodes), key) == if key in nodes then nodes else Link(nodes, key);
        if key !in nodes {
          AddEntry(key, parent);
        }
        parent := Some(key);
      }
      assert name[..|name|] == name;
    }

    /** Erases the entry if it is empty, and with it the ancestors that become empty. */
    method EraseEntryIfEmpty(name: Name, canEraseAncestors: bool) returns (nErased: nat)
      requires LinksOk(nodes) && name in nodes
      modifies this
      ensures nodes == EraseIfEmpty(old(nodes), name, canEraseAncestors)
      ensures nErased == |old(nodes)| - |nodes|
    {
      nErased := 0;
      var entry := Some(name);
      while entry.Some? && IsEmpty(nodes[entry.value])
        invariant LinksOk(nodes)
        invariant entry.Some? ==> entry.value in nodes
        invariant EraseIfEmpty(old(nodes), name, canEraseAncestors) ==
          if entry.None? then nodes else EraseIfEmpty(nodes, entry.value, canEraseAncestors)
        invariant nErased == |old(nodes)| - |nodes|
        decreases if entry.None? then 0 else 1 + |entry.value|
      {
        var parent := DropEntry(entry.value);
        nErased := nErased + 1;
        if !canEraseAncestors {
          break;
        }
        entry := parent;
      }
    }
  }

  lemma Shrinks(nodes: Nodes, name: Name)
    requires name in nodes
    ensures |nodes - {name}| == |nodes| - 1
  {
    assert (nodes - {name}).Keys + {name} == nodes.Keys;
  }
}
