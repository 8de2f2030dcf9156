/** Longest-prefix match and enumeration of all matching prefixes (table/name-tree.cpp), and the
    PIT's search for the Interests a Data packet satisfies (table/pit.cpp). */
module NameTreeSearch {
  import opened Common
  import opened Names
  import opened NameTree
  import H = Hashtable

  type EntrySelector = Nte -> bool

  predicate Selected(nodes: Nodes, pred: EntrySelector, n: Name) {
    n in nodes && pred(nodes[n])
  }

  /** r is the longest selected prefix of the name, or there is none. */
  ghost predicate LongestMatch(nodes: Nodes, pred: EntrySelector, name: Name, r: Option<Name>) {
    (r.Some? ==> r.value <= name && Selected(nodes, pred, r.value)) &&
    forall k {:trigger name[..k]} :: 0 <= k <= |name| && Selected(nodes, pred, name[..k]) ==> r.Some? && k <= |r.value|
  }

  /** There is only one longest match, so all searches that find one agree. */
  lemma LongestMatchUnique(nodes: Nodes, pred: EntrySelector, name: Name, r: Option<Name>, s: Option<Name>)
    requires LongestMatch(nodes, pred, name, r) && LongestMatch(nodes, pred, name, s)
    ensures r == s
  {
    if r.Some? {
      assert name[..|r.value|] == r.value;
    }
    if s.Some? {
      assert name[..|s.value|] == s.value;
    }
  }

  /** Probes the prefixes of a name, longest first. */
  method FindLongestPrefixMatch(nodes: Nodes, name: Name, pred: EntrySelector) returns (r: Option<Name>)
    ensures LongestMatch(nodes, pred, name, r)
  {
    for prefixLen := |name| + 1 downto 0
      invariant forall k {:trigger name[..k]} :: prefixLen <= k <= |name| ==> !Selected(nodes, pred, name[..k])
    {
      if name[..prefixLen] in nodes && pred(nodes[name[..prefixLen]]) {
        return Some(name[..prefixLen]);
      }
    }
    return None;
  }

  /** Walks up the parent links from an entry. */
  method FindLongestPrefixMatchFrom(nodes: Nodes, start: Name, pred: EntrySelector) returns (r: Option<Name>)
    requires LinksOk(nodes) && start in nodes
    ensures LongestMatch(nodes, pred, start, r)
  {
    var entry := Some(start);
    while entry.Some?
      invariant entry.Some? ==> entry.value in nodes && entry.value <= start
      invariant forall k {:trigger start[..k]} ::
        (if entry.Some? then |entry.value| + 1 else 0) <= k <= |start| ==> !Selected(nodes, pred, start[..k])
      decreases if entry.Some? then |entry.value| + 1 else 0
    {
      assert start[..|entry.value|] == entry.value;
      if pred(nodes[entry.value]) {
        return entry;
      }
      LinksAt(nodes, entry.value);
      entry := nodes[entry.value].parent;
    }
    return None;
  }

  /** The search for a PIT entry starts at the entry it is attached to, unless its name ends with
      a digest and has an entry of its own. */
  method FindLongestPrefixMatchOfPit(nodes: Nodes, pitEntry: PitEntry, pred: EntrySelector) returns (r: Option<Name>)
    requires LinksOk(nodes) && pitEntry.nte == Some(NteName(pitEntry.name)) && NteName(pitEntry.name) in nodes
    ensures LongestMatch(nodes, pred, pitEntry.name, r)
  {
    var nte := pitEntry.nte.value;
    if |nte| < |pitEntry.name| {
      if pitEntry.name in nodes {
        nte := pitEntry.name;
      }
    }
    r := FindLongestPrefixMatchFrom(nodes, nte, pred);
    ghost var name := pitEntry.name;
    if nte != name {
      forall k {:trigger name[..k]} | 0 <= k <= |name| && Selected(nodes, pred, name[..k]) ensures r.Some? && k <= |r.value| {
        assert name[..|name|] == name;
        assert nte[..k] == name[..k];
      }
    }
  }

  /** The same probing on the hash table itself, with the hash of every prefix computed once. */
  method FindLongestPrefixMatchByHash(ht: H.Hashtable, name: Name, selected: H.Node -> bool) returns (r: H.Node?)
    requires ht.Valid()
    ensures r != null ==> r.name in ht.contents && ht.contents[r.name] == r && r.name <= name && selected(r)
    ensures forall k {:trigger name[..k]} :: 0 <= k <= |name| && name[..k] in ht.contents && selected(ht.contents[name[..k]]) ==>
      r != null && k <= |r.name|
  {
    var hashes := H.ComputeHashes(ht.mix, name);
    hide ht.Valid, H.HashOfName;
    for prefixLen := |name| + 1 downto 0
      invariant forall k {:trigger name[..k]} :: prefixLen <= k <= |name| && name[..k] in ht.contents ==>
        !selected(ht.contents[name[..k]])
    {
      var node := ht.FindHashed(name, prefixLen, hashes[prefixLen]);
      if node != null && selected(node) {
        return node;
      }
    }
    return null;
  }

  /** All selected prefixes of a name, longest first. */
  function AllMatches(nodes: Nodes, pred: EntrySelector, name: Name): seq<Name> {
    (if Selected(nodes, pred, name) then [name] else []) +
    (if name == [] then [] else AllMatches(nodes, pred, Parent(name)))
  }

  /** Each selected prefix is listed, and listed once. */
  lemma {:induction false} AllMatchesMembers(nodes: Nodes, pred: EntrySelector, name: Name)
    ensures forall m :: m in AllMatches(nodes, pred, name) <==> m <= name && Selected(nodes, pred, m)
    ensures NoDuplicates(AllMatches(nodes, pred, name))
  {
    if name == [] {
      assert forall m :: m in AllMatches(nodes, pred, name) ==> m == [];
    } else {
      AllMatchesMembers(nodes, pred, Parent(name));
      forall m ensures m in AllMatches(nodes, pred, name) <==> m <= name && Selected(nodes, pred, m) {
        PrefixOfParent(m, name);
      }
    }
  }

  lemma PrefixOfParent(m: Name, name: Name)
    requires name != []
    ensures m <= name <==> m == name || m <= Parent(name)
    ensures m <= Parent(name) ==> m != name
  {
    if m <= name && m != name {
      assert m == name[..|m|] == Parent(name)[..|m|];
    }
  }

  /** The longest match comes first. */
  lemma {:induction false} LongestComesFirst(nodes: Nodes, pred: EntrySelector, name: Name, r: Option<Name>)
    requires LongestMatch(nodes, pred, name, r)
    ensures AllMatches(nodes, pred, name) == if r.None? then [] else AllMatches(nodes, pred, r.value)
    decreases |name|
  {
    assert name[..|name|] == name;
    if Selected(nodes, pred, name) {
      assert r.value == name[..|r.value|];
    } else if name != [] {
      if r.Some? {
        PrefixOfParent(r.value, name);
      }
      forall k {:trigger Parent(name)[..k]} | 0 <= k <= |name| - 1 && Selected(nodes, pred, Parent(name)[..k])
        ensures r.Some? && k <= |r.value|
      {
        assert Parent(name)[..k] == name[..k];
      }
      LongestComesFirst(nodes, pred, Parent(name), r);
    }
  }

  /** Going from one match to the next takes the parent links up to the next selected entry. */
  method AdvancePrefixMatch(nodes: Nodes, pred: EntrySelector, from: Name) returns (r: Option<Name>)
    requires LinksOk(nodes) && from in nodes
    ensures r.Some? ==> Selected(nodes, pred, r.value) && |r.value| < |from|
    ensures (if from == [] then [] else AllMatches(nodes, pred, Parent(from))) ==
      (if r.None? then [] else AllMatches(nodes, pred, r.value))
  {
    ghost var above := if from == [] then [] else AllMatches(nodes, pred, Parent(from));
    LinksAt(nodes, from);
    var entry := nodes[from].parent;
    while entry.Some?
      invariant entry.Some? ==> entry.value in nodes && |entry.value| < |from|
      invariant above == if entry.Some? then AllMatches(nodes, pred, entry.value) else []
      decreases if entry.Some? then |entry.value| + 1 else 0
    {
      if pred(nodes[entry.value]) {
        return entry;
      }
      LinksAt(nodes, entry.value);
      entry := nodes[entry.value].parent;
    }
    return None;
  }

  /** A Data packet and its implicit digest. */
  datatype Data = Data(name: Name, digest: nat)

  function FullName(d: Data): Name {
    d.name + [Digest(d.digest)]
  }

  /** Interest::matchesData: the Interest name is a prefix of the full Data name, and the other
      selectors accept the packet. */
  predicate MatchesData(e: PitEntry, d: Data, accepts: (nat, Data) -> bool) {
    e.name <= FullName(d) && accepts(e.selectors, d)
  }

  predicate HasPitEntries(e: Nte) {
    e.tables.pits != []
  }

  /** e is an entry of the PIT. */
  ghost predicate InPit(nodes: Nodes, e: PitEntry) {
    exists n :: n in nodes && e in nodes[n].tables.pits
  }

  /** The entries of one name tree entry that match. */
  function Matching(pits: seq<PitEntry>, d: Data, accepts: (nat, Data) -> bool): seq<PitEntry> {
    if pits == [] then []
    else Matching(pits[..|pits| - 1], d, accepts) +
         if MatchesData(pits[|pits| - 1], d, accepts) then [pits[|pits| - 1]] else []
  }

  lemma {:induction false} MatchingMembers(pits: seq<PitEntry>, d: Data, accepts: (nat, Data) -> bool)
    ensures forall e :: e in Matching(pits, d, accepts) <==> e in pits && MatchesData(e, d, accepts)
    ensures NoDuplicates(pits) ==> NoDuplicates(Matching(pits, d, accepts))
  {
    if pits != [] {
      var init, last := pits[..|pits| - 1], pits[|pits| - 1];
      MatchingMembers(init, d, accepts);
      assert pits == init + [last];
    }
  }

  /** The entries collected from a list of name tree entries. */
  ghost function Collected(nodes: Nodes, ntes: seq<Name>, d: Data, accepts: (nat, Data) -> bool): seq<PitEntry>
    requires forall i :: 0 <= i < |ntes| ==> ntes[i] in nodes
  {
    if ntes == [] then []
    else Collected(nodes, ntes[..|ntes| - 1], d, accepts) + Matching(nodes[ntes[|ntes| - 1]].tables.pits, d, accepts)
  }

  lemma {:induction false} CollectedMembers(nodes: Nodes, ntes: seq<Name>, d: Data, accepts: (nat, Data) -> bool)
    requires Inv(nodes) && NoDuplicates(ntes) && forall i :: 0 <= i < |ntes| ==> ntes[i] in nodes
    ensures forall e :: e in Collected(nodes, ntes, d, accepts) <==>
      NteName(e.name) in ntes && e in nodes[NteName(e.name)].tables.pits && MatchesData(e, d, accepts)
    ensures NoDuplicates(Collected(nodes, ntes, d, accepts))
  {
    if ntes != [] {
      var init, last := ntes[..|ntes| - 1], ntes[|ntes| - 1];
      CollectedMembers(nodes, init, d, accepts);
      assert ntes == init + [last];
      var pits := nodes[last].tables.pits;
      assert TablesOk(last, nodes[last].tables);
      assert forall e :: e in pits ==> NteName(e.name) == last;
      assert NoDuplicates(pits);
      MatchingMembers(pits, d, accepts);
      assert last !in init;
      DisjointConcat(Collected(nodes, init, d, accepts), Matching(pits, d, accepts));
    }
  }

  /** An entry that matches is attached on the way from the Data name to the root. */
  lemma MatchIsOnPath(nodes: Nodes, e: PitEntry, d: Data, accepts: (nat, Data) -> bool)
    requires Inv(nodes) && MatchesData(e, d, accepts)
    ensures var n := NteName(e.name);
      InPit(nodes, e) <==> n in nodes && n in AllMatches(nodes, HasPitEntries, d.name) && e in nodes[n].tables.pits
  {
    var n := NteName(e.name);
    AllMatchesMembers(nodes, HasPitEntries, d.name);
    assert n <= d.name by {
      assert e.name == FullName(d)[..|e.name|];
      assert |n| <= |d.name|;
      assert n == FullName(d)[..|n|] == d.name[..|n|];
    }
    if InPit(nodes, e) {
      var m :| m in nodes && e in nodes[m].tables.pits;
      assert TablesOk(m, nodes[m].tables);
    }
  }

  /** Finds the PIT entries a Data packet satisfies by walking up from the Data name. */
  method FindAllDataMatches(nodes: Nodes, d: Data, accepts: (nat, Data) -> bool) returns (matches: seq<PitEntry>)
    requires Inv(nodes)
    ensures forall e :: e in matches <==> InPit(nodes, e) && MatchesData(e, d, accepts)
    ensures NoDuplicates(matches)
  {
    hide MatchesData, LinksOk, Collected, AllMatches, TablesOk;
    ghost var ntes := AllMatches(nodes, HasPitEntries, d.name);
    AllMatchesMembers(nodes, HasPitEntries, d.name);
    matches := Collect(nodes, d, accepts);
    CollectedMembers(nodes, ntes, d, accepts);
    forall e ensures e in matches <==> InPit(nodes, e) && MatchesData(e, d, accepts) {
      if MatchesData(e, d, accepts) {
        MatchIsOnPath(nodes, e, d, accepts);
      }
    }
  }

  /** The walk itself, entry by entry. */
  method Collect(nodes: Nodes, d: Data, accepts: (nat, Data) -> bool) returns (matches: seq<PitEntry>)
    requires LinksOk(nodes)
    ensures var ntes := AllMatches(nodes, HasPitEntries, d.name);
      (forall j :: 0 <= j < |ntes| ==> ntes[j] in nodes) && matches == Collected(nodes, ntes, d, accepts)
  {
    hide MatchesData, LinksOk, Collected, AllMatches, HasPitEntries, LongestMatch, Matching;
    var entry := FindLongestPrefixMatch(nodes, d.name, HasPitEntries);
    ghost var ntes := AllMatches(nodes, HasPitEntries, d.name);
    AllMatchesMembers(nodes, HasPitEntries, d.name);
    forall j | 0 <= j < |ntes| ensures ntes[j] in nodes {
      assert ntes[j] in ntes;
    }
    LongestComesFirst(nodes, HasPitEntries, d.name, entry);
    matches := [];
    NothingCollected(nodes, d, accepts);
    ghost var i := 0;
    while entry.Some?
      invariant i <= |ntes| && forall j :: 0 <= j < |ntes| ==> ntes[j] in nodes
      invariant entry.Some? ==> Selected(nodes, HasPitEntries, entry.value)
      invariant ntes[i..] == if entry.None? then [] else AllMatches(nodes, HasPitEntries, entry.value)
      invariant matches == Collected(nodes, ntes[..i], d, accepts)
      decreases |ntes| - i
    {
      StartsWithSelf(nodes, HasPitEntries, entry.value);
      assert ntes[i] == ntes[i..][0];
      var found := MatchingPits(nodes[entry.value].tables.pits, d, accepts);
      CollectNext(nodes, ntes, i, d, accepts);
      matches := matches + found;
      DropOne(ntes, i);
      entry := AdvancePrefixMatch(nodes, HasPitEntries, entry.value);
      i := i + 1;
    }
    assert ntes[..i] == ntes;
  }

  lemma StartsWithSelf(nodes: Nodes, pred: EntrySelector, name: Name)
    requires Selected(nodes, pred, name)
    ensures AllMatches(nodes, pred, name) == [name] + if name == [] then [] else AllMatches(nodes, pred, Parent(name))
  {
  }

  lemma NothingCollected(nodes: Nodes, d: Data, accepts: (nat, Data) -> bool)
    ensures Collected(nodes, [], d, accepts) == []
  {
  }

  lemma DropOne<T>(s: seq<T>, i: nat)
    requires i < |s|
    ensures s[i + 1..] == s[i..][1..]
  {
  }

  lemma CollectNext(nodes: Nodes, ntes: seq<Name>, i: nat, d: Data, accepts: (nat, Data) -> bool)
    requires i < |ntes| && forall j :: 0 <= j < |ntes| ==> ntes[j] in nodes
    ensures Collected(nodes, ntes[..i + 1], d, accepts) ==
      Collected(nodes, ntes[..i], d, accepts) + Matching(nodes[ntes[i]].tables.pits, d, accepts)
  {
    assert ntes[..i + 1][..i] == ntes[..i];
  }

  method MatchingPits(pits: seq<PitEntry>, d: Data, accepts: (nat, Data) -> bool) returns (found: seq<PitEntry>)
    ensures found == Matching(pits, d, accepts)
  {
    found := [];
    for j := 0 to |pits|
      invariant found == Matching(pits[..j], d, accepts)
    {
      assert pits[..j + 1][..j] == pits[..j];
      if MatchesData(pits[j], d, accepts) {
        found := found + [pits[j]];
      }
    }
    assert pits[..|pits|] == pits;
  }
}
