/** Measurements entries on the name tree (table/measurements.cpp). */
module Measurements {
  import opened Common
  import opened Names
  import opened NameTree
  import opened TreeTables

  const INITIAL_LIFETIME: int := 4_000_000_000

  function NewEntry(name: Name, now: int): MeasurementsEntry {
    MeasurementsEntry(name, now + INITIAL_LIFETIME, None, Some(name))
  }

  function Get(nodes: Nodes, name: Name, now: int): Nodes {
    var t := TablesAt(nodes, name);
    if t.measurements.Some? then nodes else Attach(nodes, name, t.(measurements := Some(NewEntry(name, now))))
  }

  /** Keeps the entry until now + lifetime at least. */
  function ExtendLifetime(nodes: Nodes, name: Name, lifetime: nat, now: int): Nodes {
    var t := TablesAt(nodes, name);
    if t.measurements.None? || t.measurements.value.expiry >= now + lifetime then nodes
    else WithTables(nodes, name, t.(measurements := Some(t.measurements.value.(expiry := now + lifetime))))
  }

  /** The cleanup timer of an entry fires. */
  function Cleanup(nodes: Nodes, name: Name): Nodes
    requires LinksOk(nodes)
  {
    if name in nodes then Change(nodes, name, nodes[name].tables.(measurements := None)) else nodes
  }

  predicate HasMeasurements(t: Tables) {
    t.measurements.Some?
  }

  lemma GetOk(nodes: Nodes, name: Name, now: int)
    requires Inv(nodes)
    ensures Inv(Get(nodes, name, now))
    ensures NamesWith(Get(nodes, name, now), HasMeasurements) == NamesWith(nodes, HasMeasurements) + {name}
    ensures var t := TablesAt(nodes, name);
      View(Get(nodes, name, now)) == if t.measurements.Some? then View(nodes)
        else View(nodes)[name := t.(measurements := Some(NewEntry(name, now)))]
  {
    hide View, Attach, LinksOk;
    TablesAtOk(nodes, name);
    var t := TablesAt(nodes, name);
    if t.measurements.None? {
      var u := t.(measurements := Some(NewEntry(name, now)));
      AttachOk(nodes, name, u);
      NamesWithFollow(nodes, Attach(nodes, name, u), name, u, HasMeasurements);
    } else {
      assert NamesWith(nodes, HasMeasurements) + {name} == NamesWith(nodes, HasMeasurements);
    }
  }

  lemma CleanupOk(nodes: Nodes, name: Name)
    requires Inv(nodes)
    ensures Inv(Cleanup(nodes, name))
    ensures NamesWith(Cleanup(nodes, name), HasMeasurements) == NamesWith(nodes, HasMeasurements) - {name}
    ensures View(Cleanup(nodes, name)) == Update(View(nodes), name, TablesAt(nodes, name).(measurements := None))
  {
    hide Change, LinksOk, View;
    var t := TablesAt(nodes, name).(measurements := None);
    if name in nodes {
      TablesAtOk(nodes, name);
      ChangeOk(nodes, name, t);
      NamesWithFollow(nodes, Change(nodes, name, t), name, t, HasMeasurements);
    } else {
      NotInView(nodes, name);
    }
  }

  /** An expiry is put off to now + lifetime if that is later, and never brought forward; nothing else
      changes. */
  lemma ExtendNeverShortens(nodes: Nodes, name: Name, lifetime: nat, now: int)
    requires Inv(nodes) && TablesAt(nodes, name).measurements.Some?
    ensures var r := ExtendLifetime(nodes, name, lifetime, now);
      var before := TablesAt(nodes, name);
      Inv(r) && TablesAt(r, name).measurements.Some? &&
      var expiry := TablesAt(r, name).measurements.value.expiry;
      expiry >= before.measurements.value.expiry && expiry >= now + lifetime &&
      (expiry == before.measurements.value.expiry || expiry == now + lifetime) &&
      View(r) == View(nodes)[name := before.(measurements := Some(before.measurements.value.(expiry := expiry)))]
  {
    hide LinksOk;
    TablesAtOk(nodes, name);
    var t := TablesAt(nodes, name);
    if t.measurements.value.expiry < now + lifetime {
      var u := t.(measurements := Some(t.measurements.value.(expiry := now + lifetime)));
      SetOk(nodes, name, u);
    }
  }

  lemma ExtendOk(nodes: Nodes, name: Name, u: Tables)
    requires Inv(nodes) && TablesAt(nodes, name).measurements.Some? && u.measurements.Some?
    requires u == nodes[name].tables.(measurements := Some(nodes[name].tables.measurements.value.(expiry := u.measurements.value.expiry)))
    ensures Inv(WithTables(nodes, name, u))
    ensures NamesWith(WithTables(nodes, name, u), HasMeasurements) == NamesWith(nodes, HasMeasurements)
  {
    hide View, LinksOk;
    TablesAtOk(nodes, name);
    SetOk(nodes, name, u);
    NamesWithFollow(nodes, WithTables(nodes, name, u), name, u, HasMeasurements);
    assert name in NamesWith(nodes, HasMeasurements);
  }

  class Measurements {
    const nameTree: NameTree
    var nItems: nat

    ghost predicate Valid()
      reads this, nameTree
    {
      Inv(nameTree.nodes) && nItems == |NamesWith(nameTree.nodes, HasMeasurements)|
    }

    constructor (nameTree: NameTree)
      requires nameTree.nodes == map[]
      ensures Valid() && this.nameTree == nameTree
    {
      this.nameTree := nameTree;
      nItems := 0;
      new;
      assert NamesWith(nameTree.nodes, HasMeasurements) == {};
    }

    method GetEntry(name: Name, now: int)
      requires Valid()
      modifies this, nameTree
      ensures Valid() && nameTree.nodes == Get(old(nameTree.nodes), name, now)
    {
      hide Lookup, View, NamesWith, LinksOk, TablesOk;
      GetOk(nameTree.nodes, name, now);
      LookupTables(nameTree.nodes, name);
      if name in nameTree.nodes {
        LookupPresent(nameTree.nodes, name);
      }
      InNamesWith(nameTree.nodes, name);
      nameTree.LookupEntry(name);
      var t := nameTree.nodes[name].tables;
      if t.measurements.Some? {
        return;
      }
      nameTree.nodes := WithTables(nameTree.nodes, name, t.(measurements := Some(NewEntry(name, now))));
      nItems := nItems + 1;
    }

    /** The entry of the parent name is made if need be; only the root has none. */
    method GetParent(child: Name, now: int) returns (parent: Option<Name>)
      requires Valid() && TablesAt(nameTree.nodes, child).measurements.Some?
      modifies this, nameTree
      ensures Valid()
      ensures parent == if child == [] then None else Some(Parent(child))
      ensures nameTree.nodes == if child == [] then old(nameTree.nodes) else Get(old(nameTree.nodes), Parent(child), now)
    {
      if child == [] {
        return None;
      }
      LinksAt(nameTree.nodes, child);
      parent := nameTree.nodes[child].parent;
      GetEntry(parent.value, now);
    }

    /** Puts off the cleanup of an entry, never brings it forward. */
    method ExtendEntry(name: Name, lifetime: nat, now: int)
      requires Valid() && TablesAt(nameTree.nodes, name).measurements.Some?
      modifies nameTree
      ensures Valid() && nameTree.nodes == ExtendLifetime(old(nameTree.nodes), name, lifetime, now)
    {
      hide View, NamesWith, TablesOk, LinksOk;
      var t := nameTree.nodes[name].tables;
      var expiry := now + lifetime;
      if t.measurements.value.expiry >= expiry {
        return;
      }
      ExtendOk(nameTree.nodes, name, t.(measurements := Some(t.measurements.value.(expiry := expiry))));
      nameTree.nodes := WithTables(nameTree.nodes, name, t.(measurements := Some(t.measurements.value.(expiry := expiry))));
    }

    method CleanupEntry(name: Name)
      requires Valid() && TablesAt(nameTree.nodes, name).measurements.Some?
      modifies this, nameTree
      ensures Valid() && nameTree.nodes == Cleanup(old(nameTree.nodes), name)
    {
      hide View, EraseIfEmpty, NamesWith, TablesOk;
      CleanupOk(nameTree.nodes, name);
      InNamesWith(nameTree.nodes, name);
      WithTablesLinks(nameTree.nodes, name, nameTree.nodes[name].tables.(measurements := None));
      nameTree.nodes := WithTables(nameTree.nodes, name, nameTree.nodes[name].tables.(measurements := None));
      var _ := nameTree.EraseEntryIfEmpty(name, true);
      nItems := nItems - 1;
    }
  }

  lemma InNamesWith(nodes: Nodes, name: Name)
    ensures name in NamesWith(nodes, HasMeasurements) <==> TablesAt(nodes, name).measurements.Some?
  {
  }
}
