/** The name tree as a map from names to table entries: what it means to attach table entries to
    a name and to take them off again, and that this keeps the tree's invariant. */
module TreeTables {
  import opened Common
  import opened Names
  import opened NameTree

  /** The tables as their users see them: the names that carry entries, and the entries. */
  ghost function View(nodes: Nodes): map<Name, Tables> {
    map n | n in nodes && HasTableEntries(nodes[n].tables) :: nodes[n].tables
  }

  function TablesAt(nodes: Nodes, name: Name): Tables {
    if name in nodes then nodes[name].tables else NO_TABLES
  }

  lemma TablesAtOk(nodes: Nodes, name: Name)
    requires Inv(nodes)
    ensures TablesOk(name, TablesAt(nodes, name))
  {
  }

  /** The view with the tables of one name set, or gone if nothing is left of them. */
  ghost function Update(view: map<Name, Tables>, name: Name, t: Tables): map<Name, Tables> {
    if HasTableEntries(t) then view[name := t] else view - {name}
  }

  /** Sets the table entries of a name, creating its name tree entry if need be. */
  function Attach(nodes: Nodes, name: Name, t: Tables): Nodes {
    WithTables(Lookup(nodes, name), name, t)
  }

  /** Sets the table entries of an existing entry, which goes if that leaves it empty. */
  function Change(nodes: Nodes, name: Name, t: Tables): Nodes
    requires LinksOk(nodes) && name in nodes
  {
    WithTablesLinks(nodes, name, t);
    EraseIfEmpty(WithTables(nodes, name, t), name, true)
  }

  lemma WithTablesLinks(nodes: Nodes, name: Name, t: Tables)
    requires LinksOk(nodes) && name in nodes
    ensures LinksOk(WithTables(nodes, name, t))
  {
    var after := WithTables(nodes, name, t);
    hide NoDuplicates;
    forall n | n in after ensures LinkedUp(after, n) && LinkedDown(after, n) {
      LinksAt(nodes, n);
    }
  }

  /** Attaching keeps the invariant and changes the tables at that name only. */
  lemma AttachOk(nodes: Nodes, name: Name, t: Tables)
    requires Inv(nodes) && HasTableEntries(t) && TablesOk(name, t)
    ensures Inv(Attach(nodes, name, t))
    ensures View(Attach(nodes, name, t)) == View(nodes)[name := t]
  {
    hide LinksOk, TablesOk, Lookup;
    InvParts(nodes);
    LookupOk(nodes, name);
    WithTablesLinks(Lookup(nodes, name), name, t);
    NoTablesLinked();
  }

  lemma InvParts(nodes: Nodes)
    requires Inv(nodes)
    ensures LinksOk(nodes) && NoneEmpty(nodes)
    ensures forall n :: n in nodes ==> TablesOk(n, nodes[n].tables)
  {
  }

  lemma NoTablesLinked()
    ensures forall n :: TablesOk(n, NO_TABLES)
  {
  }

  /** The tables after a change, name by name. */
  lemma ChangeTables(nodes: Nodes, name: Name, t: Tables)
    requires LinksOk(nodes) && name in nodes
    ensures var after := Change(nodes, name, t);
      LinksOk(after) && (forall n :: n in after ==> n in nodes) &&
      (forall n :: TablesAt(after, n) == if n == name then t else TablesAt(nodes, n)) &&
      (OnlyEmpty(nodes, name) ==> NoneEmpty(after))
  {
    hide LinksOk, EraseIfEmpty;
    WithTablesLinks(nodes, name, t);
    EraseOk(WithTables(nodes, name, t), name, true);
  }

  /** The view follows the tables. */
  lemma ViewFollows(nodes: Nodes, after: Nodes, name: Name, t: Tables)
    requires forall n :: TablesAt(after, n) == if n == name then t else TablesAt(nodes, n)
    ensures View(after) == Update(View(nodes), name, t)
  {
    ViewTables(nodes);
    ViewTables(after);
    hide View;
    forall n ensures n in View(after) <==> n in Update(View(nodes), name, t) {
      assert n in View(after) <==> HasTableEntries(TablesAt(after, n));
    }
  }

  lemma ViewTables(nodes: Nodes)
    ensures forall n :: n in View(nodes) <==> HasTableEntries(TablesAt(nodes, n))
    ensures forall n :: n in View(nodes) ==> View(nodes)[n] == TablesAt(nodes, n)
  {
  }

  /** Changing keeps the invariant and changes the tables at that name only. */
  lemma ChangeOk(nodes: Nodes, name: Name, t: Tables)
    requires Inv(nodes) && name in nodes && TablesOk(name, t)
    ensures Inv(Change(nodes, name, t))
    ensures View(Change(nodes, name, t)) == Update(View(nodes), name, t)
  {
    hide LinksOk, TablesOk, Change, View, Update;
    InvParts(nodes);
    ChangeTables(nodes, name, t);
    ViewFollows(nodes, Change(nodes, name, t), name, t);
    forall n | n in Change(nodes, name, t) ensures TablesOk(n, Change(nodes, name, t)[n].tables) {
      assert TablesAt(Change(nodes, name, t), n) == if n == name then t else TablesAt(nodes, n);
    }
  }

  lemma NotInView(nodes: Nodes, name: Name)
    requires name !in nodes
    ensures forall t :: !HasTableEntries(t) ==> Update(View(nodes), name, t) == View(nodes)
  {
  }

  /** Updating the table entries of a name in place, so that some remain. */
  lemma SetOk(nodes: Nodes, name: Name, t: Tables)
    requires Inv(nodes) && name in nodes && TablesOk(name, t) && HasTableEntries(t)
    ensures Inv(WithTables(nodes, name, t))
    ensures View(WithTables(nodes, name, t)) == View(nodes)[name := t]
  {
    hide LinksOk, TablesOk;
    InvParts(nodes);
    WithTablesLinks(nodes, name, t);
  }

  /** Names whose tables satisfy p; only names that carry entries can. */
  ghost function NamesWith(nodes: Nodes, p: Tables -> bool): set<Name> {
    set n | n in nodes && p(nodes[n].tables)
  }

  /** Such a set of names follows the tables at one name. */
  lemma NamesWithFollow(nodes: Nodes, after: Nodes, name: Name, t: Tables, p: Tables -> bool)
    requires forall u :: p(u) ==> HasTableEntries(u)
    requires View(after) == Update(View(nodes), name, t)
    ensures NamesWith(after, p) == if p(t) then NamesWith(nodes, p) + {name} else NamesWith(nodes, p) - {name}
  {
    assert forall n :: n in NamesWith(after, p) <==> n in View(after) && p(View(after)[n]);
    assert forall n :: n in NamesWith(nodes, p) <==> n in View(nodes) && p(View(nodes)[n]);
  }

  /** Looking up a name that is there changes nothing. */
  lemma {:induction false} LookupPresent(nodes: Nodes, name: Name)
    requires LinksOk(nodes) && name in nodes
    ensures Lookup(nodes, name) == nodes
  {
    if name != [] {
      LinksAt(nodes, name);
      LookupPresent(nodes, Parent(name));
    }
  }

  /** What lookup leaves at the name itself. */
  lemma LookupTables(nodes: Nodes, name: Name)
    requires LinksOk(nodes)
    ensures Lookup(nodes, name)[name].tables == TablesAt(nodes, name)
  {
    LookupOk(nodes, name);
  }

  /** The tables after attaching, entry by entry. */
  lemma AttachTables(nodes: Nodes, name: Name, t: Tables)
    requires LinksOk(nodes)
    ensures var after := Attach(nodes, name, t);
      name in after && LinksOk(after) && after.Keys == Lookup(nodes, name).Keys &&
      (forall n :: n in nodes ==> n in after) &&
      forall n :: n in after ==> after[n].tables == if n == name then t else TablesAt(nodes, n)
  {
    hide LinksOk, Lookup;
    LookupOk(nodes, name);
    WithTablesLinks(Lookup(nodes, name), name, t);
  }

  /** The same for the entries that stay; one that went had no tables. */
  lemma ChangeEntries(nodes: Nodes, name: Name, t: Tables)
    requires LinksOk(nodes) && name in nodes
    ensures var after := Change(nodes, name, t);
      (forall n :: n in after ==> n in nodes) &&
      (forall n :: n in after ==> after[n].tables == if n == name then t else nodes[n].tables) &&
      (forall n :: n in nodes && n !in after ==> !HasTableEntries(if n == name then t else nodes[n].tables))
  {
    hide LinksOk, EraseIfEmpty;
    WithTablesLinks(nodes, name, t);
    EraseOk(WithTables(nodes, name, t), name, true);
  }
}
