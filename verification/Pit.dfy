/** Pending Interest Table entries on the name tree (table/pit.cpp, pit-entry.cpp). */
module Pit {
  import opened Common
  import opened Names
  import opened NameTree
  import opened TreeTables

  /** Where the entry for an Interest is among the entries of one name tree entry. */
  function Position(pits: seq<PitEntry>, name: Name, selectors: nat): (r: Option<nat>)
    ensures r.Some? ==> r.value < |pits| && SameInterest(pits[r.value], name, selectors)
    ensures r.None? ==> forall i :: 0 <= i < |pits| ==> !SameInterest(pits[i], name, selectors)
  {
    if pits == [] then None
    else if SameInterest(pits[0], name, selectors) then Some(0)
    else
      var r := Position(pits[1..], name, selectors);
      assert forall i :: 1 <= i < |pits| ==> pits[i] == pits[1..][i - 1];
      if r.None? then None else Some(r.value + 1)
  }

  function NewEntry(name: Name, selectors: nat): PitEntry {
    PitEntry(name, selectors, [], [], None, Some(NteName(name)))
  }

  function Insert(nodes: Nodes, name: Name, selectors: nat): Nodes {
    var t := TablesAt(nodes, NteName(name));
    if Position(t.pits, name, selectors).Some? then nodes
    else Attach(nodes, NteName(name), t.(pits := t.pits + [NewEntry(name, selectors)]))
  }

  /** Removal from the middle: the last element takes the place of the removed one. */
  function SwapRemove(pits: seq<PitEntry>, i: nat): seq<PitEntry>
    requires i < |pits|
  {
    pits[i := pits[|pits| - 1]][..|pits| - 1]
  }

  function Erase(nodes: Nodes, name: Name, selectors: nat): Nodes
    requires LinksOk(nodes)
  {
    var t := TablesAt(nodes, NteName(name));
    var i := Position(t.pits, name, selectors);
    if i.None? then nodes else Change(nodes, NteName(name), t.(pits := SwapRemove(t.pits, i.value)))
  }

  /** Updates the entry of an Interest, if it is there. */
  function Revise(nodes: Nodes, name: Name, selectors: nat, u: Revision): Nodes {
    var n := NteName(name);
    var t := TablesAt(nodes, n);
    var i := Position(t.pits, name, selectors);
    if i.None? then nodes
    else WithTables(nodes, n, t.(pits := t.pits[i.value := Updated(t.pits[i.value], u)]))
  }

  /** What can happen to a PIT entry while it is attached. */
  datatype Revision =
    | AddInRecord(face: nat)
    | AddOutRecord(face: nat)
    | DeleteInRecord(face: nat)
    | DeleteOutRecord(face: nat)
    | ClearInRecords
    | SetInfo(info: Option<nat>)

  /** insertOrUpdate: a record for the face, in front if it is new. */
  function WithRecord(records: seq<FaceRecord>, face: nat): seq<FaceRecord> {
    if exists i :: 0 <= i < |records| && records[i].face == face then records else [FaceRecord(face, None)] + records
  }

  function Updated(e: PitEntry, u: Revision): PitEntry {
    match u
    case AddInRecord(face) => e.(inRecords := WithRecord(e.inRecords, face))
    case AddOutRecord(face) => e.(outRecords := WithRecord(e.outRecords, face))
    case DeleteInRecord(face) => e.(inRecords := WithoutFace(e.inRecords, face))
    case DeleteOutRecord(face) => e.(outRecords := WithoutFace(e.outRecords, face))
    case ClearInRecords => e.(inRecords := [])
    case SetInfo(info) => e.(info := info)
  }

  /** A record of the face is there, and nothing but one is new. */
  ghost predicate RecordAdded(before: seq<FaceRecord>, after: seq<FaceRecord>, face: nat) {
    (exists r :: r in after && r.face == face) &&
    (forall r :: r in before ==> r in after) && forall r :: r in after ==> r in before || r == FaceRecord(face, None)
  }

  ghost predicate RecordDeleted(before: seq<FaceRecord>, after: seq<FaceRecord>, face: nat) {
    forall r :: r in after <==> r in before && r.face != face
  }

  /** What an update changes, all else staying as it was. */
  ghost predicate Revised(before: PitEntry, after: PitEntry, u: Revision) {
    match u
    case AddInRecord(face) => RecordAdded(before.inRecords, after.inRecords, face) && after == before.(inRecords := after.inRecords)
    case AddOutRecord(face) => RecordAdded(before.outRecords, after.outRecords, face) && after == before.(outRecords := after.outRecords)
    case DeleteInRecord(face) => RecordDeleted(before.inRecords, after.inRecords, face) && after == before.(inRecords := after.inRecords)
    case DeleteOutRecord(face) => RecordDeleted(before.outRecords, after.outRecords, face) && after == before.(outRecords := after.outRecords)
    case ClearInRecords => after.inRecords == [] && after == before.(inRecords := [])
    case SetInfo(info) => after.info == info && after == before.(info := info)
  }

  lemma WithRecordAdds(records: seq<FaceRecord>, face: nat)
    ensures RecordAdded(records, WithRecord(records, face), face)
  {
    var r := WithRecord(records, face);
    if i :| 0 <= i < |records| && records[i].face == face {
      assert records[i] in r;
    } else {
      assert r[0] in r;
    }
  }

  lemma UpdatedOk(n: Name, e: PitEntry, u: Revision)
    requires PitEntryOk(n, e)
    ensures PitEntryOk(n, Updated(e, u)) && SameInterest(Updated(e, u), e.name, e.selectors)
    ensures Revised(e, Updated(e, u), u)
  {
    hide RecordAdded;
    match u {
      case AddInRecord(face) => WithRecordAdds(e.inRecords, face);
      case AddOutRecord(face) => WithRecordAdds(e.outRecords, face);
      case DeleteInRecord(face) => WithoutFaceGone(e.inRecords, face);
      case DeleteOutRecord(face) => WithoutFaceGone(e.outRecords, face);
      case _ =>
    }
  }

  lemma UpdatedTablesOk(n: Name, t: Tables, i: nat, u: Revision)
    requires TablesOk(n, t) && i < |t.pits|
    ensures TablesOk(n, t.(pits := t.pits[i := Updated(t.pits[i], u)]))
  {
    hide Updated;
    assert PitEntryOk(n, t.pits[i]);
    UpdatedOk(n, t.pits[i], u);
  }

  function WithoutFace(records: seq<FaceRecord>, face: nat): seq<FaceRecord> {
    if records == [] then []
    else if records[0].face == face then records[1..]
    else [records[0]] + WithoutFace(records[1..], face)
  }

  /** Deleting a face's record leaves the records of exactly the other faces. */
  lemma WithoutFaceGone(records: seq<FaceRecord>, face: nat)
    requires OneRecordPerFace(records)
    ensures forall r :: r in WithoutFace(records, face) <==> r in records && r.face != face
    ensures OneRecordPerFace(WithoutFace(records, face))
  {
    if records != [] {
      assert forall r :: r in records <==> r == records[0] || r in records[1..];
      if records[0].face == face {
        forall r | r in records[1..] ensures r.face != face {
          var i :| 0 <= i < |records[1..]| && records[1..][i] == r;
          assert records[i + 1] == r;
        }
      } else {
        WithoutFaceGone(records[1..], face);
      }
    }
  }

  /** There is a PIT entry at position i of the name tree entry n. */
  predicate Holds(nodes: Nodes, n: Name, i: int) {
    n in nodes && 0 <= i < |nodes[n].tables.pits|
  }

  function KeyAt(nodes: Nodes, n: Name, i: int): (Name, nat)
    requires Holds(nodes, n, i)
  {
    (nodes[n].tables.pits[i].name, nodes[n].tables.pits[i].selectors)
  }

  /** The same Interest always has the same entry: name and selectors determine the name tree
      entry and the position there. */
  lemma OneEntryPerInterest(nodes: Nodes, n: Name, i: int, m: Name, j: int)
    requires Inv(nodes) && Holds(nodes, n, i) && Holds(nodes, m, j) && KeyAt(nodes, n, i) == KeyAt(nodes, m, j)
    ensures n == m && i == j
  {
    assert TablesOk(n, nodes[n].tables) && TablesOk(m, nodes[m].tables);
    assert PitEntryOk(n, nodes[n].tables.pits[i]) && PitEntryOk(m, nodes[m].tables.pits[j]);
    assert n == m;
  }

  /** The names and selectors of all pending Interests. */
  ghost function Interests(nodes: Nodes): set<(Name, nat)> {
    set n, i | n in nodes && 0 <= i < |nodes[n].tables.pits| ::
      (nodes[n].tables.pits[i].name, nodes[n].tables.pits[i].selectors)
  }

  /** An Interest is pending exactly if its entry is found where it belongs. */
  lemma InterestPosition(nodes: Nodes, name: Name, selectors: nat)
    requires Inv(nodes)
    ensures (name, selectors) in Interests(nodes) <==> Position(TablesAt(nodes, NteName(name)).pits, name, selectors).Some?
  {
    hide LinksOk;
    var t := TablesAt(nodes, NteName(name));
    if (name, selectors) in Interests(nodes) {
      var n, i :| n in nodes && 0 <= i < |nodes[n].tables.pits| &&
        (nodes[n].tables.pits[i].name, nodes[n].tables.pits[i].selectors) == (name, selectors);
      assert TablesOk(n, nodes[n].tables) && PitEntryOk(n, nodes[n].tables.pits[i]);
      assert SameInterest(t.pits[i], name, selectors);
    }
    var p := Position(t.pits, name, selectors);
    if p.Some? {
      assert NteName(name) in nodes && nodes[NteName(name)].tables.pits[p.value].name == name;
    }
  }

  lemma AppendedOk(n: Name, t: Tables, e: PitEntry)
    requires TablesOk(n, t) && PitEntryOk(n, e) && Position(t.pits, e.name, e.selectors).None?
    ensures TablesOk(n, t.(pits := t.pits + [e]))
  {
  }

  lemma SwapRemovedOk(n: Name, t: Tables, i: nat)
    requires TablesOk(n, t) && i < |t.pits|
    ensures TablesOk(n, t.(pits := SwapRemove(t.pits, i)))
    ensures forall e :: e in SwapRemove(t.pits, i) <==> e in t.pits && e != t.pits[i]
  {
    var u := SwapRemove(t.pits, i);
    assert forall k :: 0 <= k < |u| ==> u[k] == t.pits[if k == i then |t.pits| - 1 else k];
    forall e | e in t.pits && e != t.pits[i] ensures e in u {
      var k :| 0 <= k < |t.pits| && t.pits[k] == e;
      assert u[if k == |t.pits| - 1 then i else k] == e;
    }
    forall k, l | 0 <= k < |t.pits| && 0 <= l < |t.pits| && k != l ensures t.pits[k] != t.pits[l] {
      var a, b := if k < l then k else l, if k < l then l else k;
      assert !SameInterest(t.pits[a], t.pits[b].name, t.pits[b].selectors);
    }
  }

  /** Insertion makes the Interest pending and keeps everything else. */
  lemma InsertOk(nodes: Nodes, name: Name, selectors: nat)
    requires Inv(nodes)
    ensures Inv(Insert(nodes, name, selectors))
    ensures Interests(Insert(nodes, name, selectors)) == Interests(nodes) + {(name, selectors)}
    ensures var t := TablesAt(nodes, NteName(name));
      View(Insert(nodes, name, selectors)) ==
        if Position(t.pits, name, selectors).Some? then View(nodes)
        else View(nodes)[NteName(name) := t.(pits := t.pits + [NewEntry(name, selectors)])]
  {
    hide Attach, View, TablesOk, Inv, Interests, Position;
    var n := NteName(name);
    var t := TablesAt(nodes, n);
    TablesAtOk(nodes, n);
    InterestPosition(nodes, name, selectors);
    if Position(t.pits, name, selectors).None? {
      var e := NewEntry(name, selectors);
      AppendedOk(n, t, e);
      AttachOk(nodes, n, t.(pits := t.pits + [e]));
      InterestsFollow(nodes, Attach(nodes, n, t.(pits := t.pits + [e])), n, t.(pits := t.pits + [e]));
      KeysAppend(t.pits, e);
      assert Interests(nodes) - Keys(t.pits) + (Keys(t.pits) + {(name, selectors)}) == Interests(nodes) + {(name, selectors)} by {
        KeysInInterests(nodes, n);
      }
    } else {
      assert Interests(nodes) + {(name, selectors)} == Interests(nodes);
    }
  }

  /** Erasure makes exactly that Interest no longer pending. */
  lemma RemovalOk(nodes: Nodes, name: Name, selectors: nat)
    requires Inv(nodes)
    ensures Inv(Erase(nodes, name, selectors))
    ensures Interests(Erase(nodes, name, selectors)) == Interests(nodes) - {(name, selectors)}
    ensures var n := NteName(name); var t := TablesAt(nodes, n); var i := Position(t.pits, name, selectors);
      View(Erase(nodes, name, selectors)) ==
        if i.None? then View(nodes) else Update(View(nodes), n, t.(pits := SwapRemove(t.pits, i.value)))
  {
    hide Change, View, TablesOk, LinksOk, Interests, NoneEmpty;
    var n := NteName(name);
    var t := TablesAt(nodes, n);
    TablesAtOk(nodes, n);
    InterestPosition(nodes, name, selectors);
    var i := Position(t.pits, name, selectors);
    if i.Some? {
      SwapRemovedOk(n, t, i.value);
      var u := t.(pits := SwapRemove(t.pits, i.value));
      ChangeOk(nodes, n, u);
      InterestsFollow(nodes, Change(nodes, n, u), n, u);
      KeysRemove(n, t, i.value);
      KeysInInterests(nodes, n);
      OnlyHere(nodes, n, name, selectors);
    }
  }

  ghost function Keys(pits: seq<PitEntry>): set<(Name, nat)> {
    set i | 0 <= i < |pits| :: (pits[i].name, pits[i].selectors)
  }

  lemma KeysAppend(pits: seq<PitEntry>, e: PitEntry)
    ensures Keys(pits + [e]) == Keys(pits) + {(e.name, e.selectors)}
  {
    assert (pits + [e])[|pits|] == e;
    assert forall i :: 0 <= i < |pits| ==> (pits + [e])[i] == pits[i];
  }

  lemma KeysRemove(n: Name, t: Tables, i: nat)
    requires TablesOk(n, t) && i < |t.pits|
    ensures Keys(SwapRemove(t.pits, i)) == Keys(t.pits) - {(t.pits[i].name, t.pits[i].selectors)}
  {
    var pits, u := t.pits, SwapRemove(t.pits, i);
    assert forall k :: 0 <= k < |u| ==> u[k] == pits[if k == i then |pits| - 1 else k];
    forall k | 0 <= k < |pits| && k != i
      ensures (pits[k].name, pits[k].selectors) in Keys(u)
      ensures (pits[k].name, pits[k].selectors) != (pits[i].name, pits[i].selectors)
    {
      assert u[if k == |pits| - 1 then i else k] == pits[k];
      var a, b := if k < i then k else i, if k < i then i else k;
      assert !SameInterest(pits[a], pits[b].name, pits[b].selectors);
    }
  }

  lemma KeysInInterests(nodes: Nodes, n: Name)
    ensures Keys(TablesAt(nodes, n).pits) <= Interests(nodes)
  {
    var pits := TablesAt(nodes, n).pits;
    forall i | 0 <= i < |pits| ensures (pits[i].name, pits[i].selectors) in Interests(nodes) {
      assert n in nodes && nodes[n].tables.pits[i] == pits[i];
    }
  }

  lemma OnlyHere(nodes: Nodes, n: Name, name: Name, selectors: nat)
    requires Inv(nodes) && n == NteName(name)
    ensures (name, selectors) in Interests(nodes) <==> (name, selectors) in Keys(TablesAt(nodes, n).pits)
  {
    hide LinksOk;
    InterestPosition(nodes, name, selectors);
    KeysInInterests(nodes, n);
    var p := Position(TablesAt(nodes, n).pits, name, selectors);
    if p.Some? {
      assert TablesAt(nodes, n).pits[p.value].name == name;
    }
  }

  lemma PitsFollow(nodes: Nodes, after: Nodes, n: Name, u: Tables, m: Name)
    requires View(after) == Update(View(nodes), n, u)
    ensures TablesAt(after, m).pits == if m == n then u.pits else TablesAt(nodes, m).pits
  {
    assert TablesAt(after, m).pits == if m in View(after) then View(after)[m].pits else [];
    assert TablesAt(nodes, m).pits == if m in View(nodes) then View(nodes)[m].pits else [];
  }

  lemma KeysBelong(n: Name, pits: seq<PitEntry>, key: (Name, nat))
    requires (forall i :: 0 <= i < |pits| ==> PitEntryOk(n, pits[i])) && key in Keys(pits)
    ensures NteName(key.0) == n
  {
    var i :| 0 <= i < |pits| && (pits[i].name, pits[i].selectors) == key;
    assert PitEntryOk(n, pits[i]);
  }

  /** Where the tables change at one name, the pending Interests change there only. */
  lemma InterestsFollow(nodes: Nodes, after: Nodes, n: Name, u: Tables)
    requires Inv(nodes) && Inv(after)
    requires View(after) == Update(View(nodes), n, u)
    ensures Interests(after) == Interests(nodes) - Keys(TablesAt(nodes, n).pits) + Keys(u.pits)
  {
    hide Inv, Interests, Keys, View, PitEntryOk;
    var t := TablesAt(nodes, n);
    TablesAtOk(nodes, n);
    TablesAtOk(after, n);
    PitsFollow(nodes, after, n, u, n);
    forall key ensures key in Interests(after) <==> key in Interests(nodes) - Keys(t.pits) + Keys(u.pits) {
      var m := NteName(key.0);
      OnlyHere(nodes, m, key.0, key.1);
      OnlyHere(after, m, key.0, key.1);
      PitsFollow(nodes, after, n, u, m);
      if key in Keys(t.pits) {
        KeysBelong(n, t.pits, key);
      }
      if key in Keys(u.pits) {
        KeysBelong(n, u.pits, key);
      }
    }
  }

  class Pit {
    const nameTree: NameTree
    var nItems: nat

    ghost predicate Valid()
      reads this, nameTree
    {
      Inv(nameTree.nodes) && nItems == |Interests(nameTree.nodes)|
    }

    constructor (nameTree: NameTree)
      requires nameTree.nodes == map[]
      ensures Valid() && this.nameTree == nameTree
    {
      this.nameTree := nameTree;
      nItems := 0;
      new;
      assert Interests(nameTree.nodes) == {};
    }

    /** Finds the entry of an Interest, or makes one if allowed; isNew is set whenever none was found. */
    method FindOrInsert(name: Name, selectors: nat, allowInsert: bool) returns (r: Option<PitEntry>, isNew: bool)
      requires Valid()
      modifies this, nameTree
      ensures Valid()
      ensures nameTree.nodes == if allowInsert then Insert(old(nameTree.nodes), name, selectors) else old(nameTree.nodes)
      ensures isNew <==> (name, selectors) !in old(Interests(nameTree.nodes))
      ensures r.Some? <==> (name, selectors) in Interests(nameTree.nodes)
      ensures r.Some? ==> SameInterest(r.value, name, selectors) && r.value in TablesAt(nameTree.nodes, NteName(name)).pits
    {
      hide Lookup, View, Interests, LinksOk, TablesOk;
      var nteName := NteName(name);
      InterestPosition(nameTree.nodes, name, selectors);
      if allowInsert {
        InsertOk(nameTree.nodes, name, selectors);
        LookupTables(nameTree.nodes, nteName);
        if nteName in nameTree.nodes {
          LookupPresent(nameTree.nodes, nteName);
        }
        nameTree.LookupEntry(nteName);
      } else if nteName !in nameTree.nodes {
        return None, true;
      }

      var t := nameTree.nodes[nteName].tables;
      var it := Position(t.pits, name, selectors);
      if it.Some? {
        return Some(t.pits[it.value]), false;
      }
      if !allowInsert {
        return None, true;
      }

      var entry := NewEntry(name, selectors);
      nameTree.nodes := WithTables(nameTree.nodes, nteName, t.(pits := t.pits + [entry]));
      nItems := nItems + 1;
      assert nameTree.nodes[nteName].tables.pits[|t.pits|] == entry;
      return Some(entry), true;
    }

    method EraseEntry(name: Name, selectors: nat)
      requires Valid() && (name, selectors) in Interests(nameTree.nodes)
      modifies this, nameTree
      ensures Valid() && nameTree.nodes == Erase(old(nameTree.nodes), name, selectors)
    {
      hide View, Interests, TablesOk, EraseIfEmpty;
      var n := NteName(name);
      InterestPosition(nameTree.nodes, name, selectors);
      RemovalOk(nameTree.nodes, name, selectors);
      var t := nameTree.nodes[n].tables;
      var it := Position(t.pits, name, selectors).value;
      ghost var u := t.(pits := SwapRemove(t.pits, it));
      WithTablesLinks(nameTree.nodes, n, u);
      nameTree.nodes := WithTables(nameTree.nodes, n, t.(pits := SwapRemove(t.pits, it)));
      var _ := nameTree.EraseEntryIfEmpty(n, true);
      nItems := nItems - 1;
    }
  }
}
