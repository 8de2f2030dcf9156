/** Strategy choices on the name tree, and the StrategyInfo that a change of strategy clears
    (table/strategy-choice.cpp). A strategy is identified by its installed instance. */
module StrategyChoice {
  import opened Common
  import opened Names
  import opened NameTree
  import opened TreeTables
  import opened NameTreeSearch
  import opened NameTreeIterator

  predicate HasChoice(e: Nte) {
    e.tables.strategyChoice.Some?
  }

  function ChoiceAt(nodes: Nodes, name: Name): Option<nat> {
    var c := TablesAt(nodes, name).strategyChoice;
    if c.Some? then Some(c.value.strategy) else None
  }

  /** The root always has a choice, set by setDefaultStrategy. */
  ghost predicate Ready(nodes: Nodes) {
    Inv(nodes) && ChoiceAt(nodes, []).Some?
  }

  /** The strategy in charge of a name: that of the longest prefix with a choice. */
  ghost function Effective(nodes: Nodes, name: Name): nat
    requires ChoiceAt(nodes, []).Some?
  {
    if ChoiceAt(nodes, name).Some? then ChoiceAt(nodes, name).value else Effective(nodes, Parent(name))
  }

  /** Effective is what a longest prefix match finds. */
  lemma {:induction false} EffectiveByMatch(nodes: Nodes, name: Name, r: Option<Name>)
    requires ChoiceAt(nodes, []).Some? && LongestMatch(nodes, HasChoice, name, r)
    ensures r.Some? && ChoiceAt(nodes, r.value) == Some(Effective(nodes, name))
    decreases |name|
  {
    assert name[..0] == [] && name[..|name|] == name;
    assert Selected(nodes, HasChoice, name[..0]);
    assert r.value == name[..|r.value|];
    if !Selected(nodes, HasChoice, name) {
      var up := Parent(name);
      forall k {:trigger up[..k]} | 0 <= k <= |up| && Selected(nodes, HasChoice, up[..k]) ensures k <= |r.value| {
        assert up[..k] == name[..k];
      }
      assert r.value == up[..|r.value|];
      EffectiveByMatch(nodes, up, r);
    }
  }

  /** Only the choices matter. */
  lemma {:induction false} EffectiveFollowsChoices(a: Nodes, b: Nodes, name: Name)
    requires ChoiceAt(a, []).Some? && forall m :: ChoiceAt(a, m) == ChoiceAt(b, m)
    ensures Effective(a, name) == Effective(b, name)
    decreases |name|
  {
    if ChoiceAt(a, name).None? {
      EffectiveFollowsChoices(a, b, Parent(name));
    }
  }

  /** The selector that changeStrategy enumerates with: below the changing entry, down to but not
      into entries with a choice of their own. */
  function Affected(nodes: Nodes, prefix: Name): Selector {
    n => if n == prefix then (true, true)
         else if ChoiceAt(nodes, n).Some? then (false, false)
         else (true, true)
  }

  function ClearRecords(records: seq<FaceRecord>): seq<FaceRecord> {
    seq(|records|, i requires 0 <= i < |records| => records[i].(info := None))
  }

  function ClearPits(pits: seq<PitEntry>): seq<PitEntry> {
    seq(|pits|, i requires 0 <= i < |pits| =>
      pits[i].(info := None, inRecords := ClearRecords(pits[i].inRecords), outRecords := ClearRecords(pits[i].outRecords)))
  }

  /** All StrategyInfo at one name tree entry: on PIT entries, their records, and measurements. */
  function ClearInfo(t: Tables): Tables {
    t.(pits := ClearPits(t.pits),
       measurements := if t.measurements.Some? then Some(t.measurements.value.(info := None)) else None)
  }

  ghost predicate RecordsCleared(before: seq<FaceRecord>, after: seq<FaceRecord>) {
    |after| == |before| && forall i :: 0 <= i < |after| ==> after[i].face == before[i].face && after[i].info.None?
  }

  ghost predicate PitCleared(before: PitEntry, after: PitEntry) {
    after.name == before.name && after.selectors == before.selectors && after.nte == before.nte && after.info.None? &&
    RecordsCleared(before.inRecords, after.inRecords) && RecordsCleared(before.outRecords, after.outRecords)
  }

  /** No StrategyInfo is left on PIT entries, their records and measurements; all else is as it was. */
  ghost predicate InfoCleared(before: Tables, after: Tables) {
    after.fib == before.fib && after.strategyChoice == before.strategyChoice &&
    |after.pits| == |before.pits| && (forall i :: 0 <= i < |after.pits| ==> PitCleared(before.pits[i], after.pits[i])) &&
    (after.measurements.Some? <==> before.measurements.Some?) &&
    (after.measurements.Some? ==>
      after.measurements.value.info.None? && after.measurements.value.name == before.measurements.value.name &&
      after.measurements.value.expiry == before.measurements.value.expiry &&
      after.measurements.value.nte == before.measurements.value.nte)
  }

  lemma ClearInfoClears(t: Tables)
    ensures InfoCleared(t, ClearInfo(t))
  {
  }

  /** The tree with the StrategyInfo cleared at the names in s. */
  function Cleared(nodes: Nodes, s: set<Name>): (r: Nodes)
    ensures r.Keys == nodes.Keys
  {
    map n | n in nodes :: if n in s then nodes[n].(tables := ClearInfo(nodes[n].tables)) else nodes[n]
  }

  /** The names below prefix whose choice is inherited from there. */
  ghost predicate Inherits(nodes: Nodes, prefix: Name, n: Name) {
    n in nodes && prefix <= n &&
    forall k {:trigger n[..k]} :: |prefix| < k <= |n| ==> ChoiceAt(nodes, n[..k]).None?
  }

  ghost function Region(nodes: Nodes, prefix: Name): set<Name> {
    set n | n in nodes && Inherits(nodes, prefix, n)
  }

  /** The enumeration visits exactly the names that inherit from the prefix. */
  lemma RegionEnumerated(nodes: Nodes, prefix: Name, n: Name)
    requires LinksOk(nodes) && prefix in nodes
    ensures KidsOk(KidsOf(nodes))
    ensures n in PreOrder(KidsOf(nodes), Affected(nodes, prefix), prefix) <==> n in Region(nodes, prefix)
  {
    hide LinksOk, KidsOk, Accepted;
    LinkedKids(nodes);
    PreOrderMembers(KidsOf(nodes), Affected(nodes, prefix), prefix, n);
    AcceptedInherits(nodes, prefix, n);
  }

  lemma AcceptedInherits(nodes: Nodes, prefix: Name, n: Name)
    ensures Accepted(KidsOf(nodes), Affected(nodes, prefix), prefix, n) <==> Inherits(nodes, prefix, n)
  {
    var sel := Affected(nodes, prefix);
    if n in nodes && prefix <= n {
      assert n[..|n|] == n && n[..|prefix|] == prefix;
      forall k {:trigger n[..k]} | |prefix| <= k <= |n|
        ensures sel(n[..k]) == if k == |prefix| || ChoiceAt(nodes, n[..k]).None? then (true, true) else (false, false)
      {
      }
    }
  }

  /** Setting a choice makes it effective exactly where it is inherited. */
  lemma {:induction false} EffectiveAfterSet(nodes: Nodes, after: Nodes, prefix: Name, n: Name)
    requires ChoiceAt(nodes, []).Some? && LinksOk(nodes) && prefix in nodes && n in nodes
    requires ChoiceAt(after, prefix).Some? && forall m :: m != prefix ==> ChoiceAt(after, m) == ChoiceAt(nodes, m)
    ensures Effective(after, n) ==
      if Inherits(nodes, prefix, n) then ChoiceAt(after, prefix).value else Effective(nodes, n)
    ensures Inherits(nodes, prefix, n) ==> Effective(nodes, n) == Effective(nodes, prefix)
    decreases |n|
  {
    assert n[..|n|] == n;
    if n != prefix && ChoiceAt(nodes, n).None? {
      LinksAt(nodes, n);
      var up := Parent(n);
      EffectiveAfterSet(nodes, after, prefix, up);
      assert Inherits(nodes, prefix, n) <==> Inherits(nodes, prefix, up) by {
        InheritsFromParent(nodes, prefix, n);
      }
    }
  }

  lemma InheritsFromParent(nodes: Nodes, prefix: Name, n: Name)
    requires n in nodes && n != [] && Parent(n) in nodes && n != prefix && ChoiceAt(nodes, n).None?
    ensures Inherits(nodes, prefix, n) <==> Inherits(nodes, prefix, Parent(n))
  {
    var up := Parent(n);
    PrefixOfParent(prefix, n);
    assert n[..|n|] == n;
    forall k {:trigger n[..k]} {:trigger up[..k]} | 0 <= k <= |up| ensures up[..k] == n[..k] {
    }
  }

  lemma ClearInfoOk(n: Name, t: Tables)
    requires TablesOk(n, t)
    ensures TablesOk(n, ClearInfo(t)) && (HasTableEntries(ClearInfo(t)) <==> HasTableEntries(t))
  {
    var u := ClearInfo(t);
    forall i | 0 <= i < |u.pits| ensures PitEntryOk(n, u.pits[i]) {
      assert PitEntryOk(n, t.pits[i]);
    }
    forall i, j | 0 <= i < j < |u.pits| ensures !SameInterest(u.pits[i], u.pits[j].name, u.pits[j].selectors) {
      assert !SameInterest(t.pits[i], t.pits[j].name, t.pits[j].selectors);
    }
  }

  /** Clearing StrategyInfo leaves links and choices alone. */
  lemma ClearedOk(nodes: Nodes, s: set<Name>)
    requires Inv(nodes)
    ensures Inv(Cleared(nodes, s)) && KidsOf(Cleared(nodes, s)) == KidsOf(nodes)
    ensures forall m :: ChoiceAt(Cleared(nodes, s), m) == ChoiceAt(nodes, m)
  {
    hide TablesOk, NoDuplicates;
    var after := Cleared(nodes, s);
    forall n | n in after
      ensures TablesOk(n, after[n].tables) && !IsEmpty(after[n]) && LinkedUp(after, n) && LinkedDown(after, n)
    {
      LinksAt(nodes, n);
      assert TablesOk(n, nodes[n].tables);
      if n in s {
        ClearInfoOk(n, nodes[n].tables);
      }
    }
  }

  function NewChoice(prefix: Name, strategy: nat): StrategyChoiceEntry {
    StrategyChoiceEntry(prefix, strategy, Some(prefix))
  }

  /** What a change of strategy clears, and what it leaves. */
  ghost function ChangeStrategy(nodes: Nodes, prefix: Name, oldStrategy: nat, newStrategy: nat): Nodes {
    if oldStrategy == newStrategy then nodes else Cleared(nodes, Region(nodes, prefix))
  }

  /** insert, once the strategy has been found installed. */
  ghost function Insert(nodes: Nodes, prefix: Name, strategy: nat): Nodes
    requires Ready(nodes)
  {
    var t := TablesAt(nodes, prefix);
    if ChoiceAt(nodes, prefix) == Some(strategy) then nodes else
    ChangeStrategy(Attach(nodes, prefix, t.(strategyChoice := Some(NewChoice(prefix, strategy)))), prefix,
                   Effective(nodes, prefix), strategy)
  }

  ghost function Erase(nodes: Nodes, prefix: Name): Nodes
    requires Ready(nodes) && prefix != []
  {
    if ChoiceAt(nodes, prefix).None? then nodes else
    var cleared := ChangeStrategy(nodes, prefix, ChoiceAt(nodes, prefix).value, Effective(nodes, Parent(prefix)));
    ClearedOk(nodes, Region(nodes, prefix));
    Change(cleared, prefix, cleared[prefix].tables.(strategyChoice := None))
  }

  /** The tables at n, with StrategyInfo cleared if n's effective strategy is another one now. */
  ghost predicate ClearedIfChanged(nodes: Nodes, after: Nodes, n: Name, t: Tables)
    requires ChoiceAt(nodes, []).Some? && ChoiceAt(after, []).Some? && n in after
  {
    if Effective(after, n) != Effective(nodes, n) then InfoCleared(t, after[n].tables) else after[n].tables == t
  }

  lemma InheritsFollows(a: Nodes, b: Nodes, prefix: Name, n: Name)
    requires (n in a <==> n in b) && forall m :: m != prefix ==> ChoiceAt(a, m) == ChoiceAt(b, m)
    ensures Inherits(a, prefix, n) <==> Inherits(b, prefix, n)
  {
    forall k {:trigger n[..k]} | |prefix| < k <= |n| ensures n[..k] != prefix {
    }
  }

  /** The heart of the matter: `a` and `b` differ in the choice at prefix; what inherits it changes
      its effective strategy, and nothing else does. */
  lemma ChangedExactlyInRegion(a: Nodes, b: Nodes, prefix: Name, n: Name)
    requires ChoiceAt(a, []).Some? && LinksOk(a) && prefix in a && n in a
    requires ChoiceAt(b, prefix).Some? && forall m :: m != prefix ==> ChoiceAt(b, m) == ChoiceAt(a, m)
    ensures ChoiceAt(b, []).Some?
    ensures Effective(b, n) != Effective(a, n) <==>
      Inherits(a, prefix, n) && ChoiceAt(b, prefix).value != Effective(a, prefix)
  {
    hide Inherits, LinksOk;
    EffectiveAfterSet(a, b, prefix, n);
  }

  lemma AttachChoices(nodes: Nodes, prefix: Name, t: Tables)
    requires LinksOk(nodes) && t.strategyChoice.Some?
    ensures var base, mid := Lookup(nodes, prefix), Attach(nodes, prefix, t);
      prefix in base && LinksOk(base) && base.Keys == mid.Keys &&
      (forall m :: ChoiceAt(base, m) == ChoiceAt(nodes, m)) &&
      (forall m :: m != prefix ==> ChoiceAt(mid, m) == ChoiceAt(nodes, m)) &&
      ChoiceAt(mid, prefix) == Some(t.strategyChoice.value.strategy)
  {
    hide LinksOk, Lookup;
    LookupOk(nodes, prefix);
  }

  /** Where a new choice at the prefix changes the effective strategy. */
  lemma AttachEffective(nodes: Nodes, prefix: Name, t: Tables, n: Name)
    requires ChoiceAt(nodes, []).Some? && LinksOk(nodes) && t.strategyChoice.Some?
    requires n in Attach(nodes, prefix, t)
    ensures var mid := Attach(nodes, prefix, t);
      ChoiceAt(mid, []).Some? &&
      (Effective(mid, n) != Effective(nodes, n) <==>
        n in Region(mid, prefix) && t.strategyChoice.value.strategy != Effective(nodes, prefix))
  {
    hide Attach, Inherits, LinksOk;
    var base, mid := Lookup(nodes, prefix), Attach(nodes, prefix, t);
    AttachChoices(nodes, prefix, t);
    hide ChoiceAt;
    EffectiveFollowsChoices(base, nodes, n);
    EffectiveFollowsChoices(base, nodes, prefix);
    ChangedExactlyInRegion(base, mid, prefix, n);
    InheritsFollows(base, mid, prefix, n);
  }

  /** The tables at n once the choice at prefix is set. */
  function WithChoice(nodes: Nodes, prefix: Name, strategy: nat, n: Name): Tables {
    if n == prefix then TablesAt(nodes, n).(strategyChoice := Some(NewChoice(n, strategy))) else TablesAt(nodes, n)
  }

  /** The tree with the choice set, before StrategyInfo is cleared. */
  function WithNewChoice(nodes: Nodes, prefix: Name, strategy: nat): Nodes {
    Attach(nodes, prefix, WithChoice(nodes, prefix, strategy, prefix))
  }

  lemma InsertedTables(nodes: Nodes, prefix: Name, strategy: nat)
    requires Ready(nodes) && ChoiceAt(nodes, prefix) != Some(strategy)
    ensures var mid, after := WithNewChoice(nodes, prefix, strategy), Insert(nodes, prefix, strategy);
      var s := if Effective(nodes, prefix) == strategy then {} else Region(mid, prefix);
      Ready(after) && after.Keys == mid.Keys && ChoiceAt(after, prefix) == Some(strategy) && (forall n :: n in nodes ==> n in after) &&
      (forall m :: ChoiceAt(after, m) == ChoiceAt(mid, m)) &&
      forall n :: n in after ==>
        after[n].tables == if n in s then ClearInfo(WithChoice(nodes, prefix, strategy, n)) else WithChoice(nodes, prefix, strategy, n)
  {
    hide Attach, Region, LinksOk, Cleared, ClearInfo, TablesOk, NoneEmpty, Effective;
    InvParts(nodes);
    TablesAtOk(nodes, prefix);
    var t := WithChoice(nodes, prefix, strategy, prefix);
    ChoiceTablesOk(prefix, TablesAt(nodes, prefix), t);
    var mid := WithNewChoice(nodes, prefix, strategy);
    AttachOk(nodes, prefix, t);
    AttachTables(nodes, prefix, t);
    AttachChoices(nodes, prefix, t);
    assert [] in mid;
    ClearedOk(mid, Region(mid, prefix));
    ClearedTables(mid, Region(mid, prefix));
  }

  /** Insertion clears StrategyInfo at exactly the entries whose effective strategy changes. */
  lemma InsertClearsExactlyChanged(nodes: Nodes, prefix: Name, strategy: nat)
    requires Ready(nodes)
    ensures var after := Insert(nodes, prefix, strategy);
      Ready(after) && ChoiceAt(after, prefix) == Some(strategy) &&
      (forall n :: n in nodes ==> n in after) &&
      forall n :: n in after ==> ClearedIfChanged(nodes, after, n, WithChoice(nodes, prefix, strategy, n))
  {
    hide Attach, Inherits, LinksOk, ClearInfo, InfoCleared, TablesOk, NoneEmpty, ChangeStrategy;
    InvParts(nodes);
    if ChoiceAt(nodes, prefix) == Some(strategy) {
      TablesAtOk(nodes, prefix);
      SameChoice(nodes, prefix, strategy);
    } else {
      InsertedTables(nodes, prefix, strategy);
      hide Insert, ChoiceAt;
      var after, mid := Insert(nodes, prefix, strategy), WithNewChoice(nodes, prefix, strategy);
      forall n | n in after ensures ClearedIfChanged(nodes, after, n, WithChoice(nodes, prefix, strategy, n)) {
        EffectiveFollowsChoices(after, mid, n);
        AttachEffective(nodes, prefix, WithChoice(nodes, prefix, strategy, prefix), n);
        ClearInfoClears(WithChoice(nodes, prefix, strategy, n));
      }
    }
  }

  lemma SameChoice(nodes: Nodes, prefix: Name, strategy: nat)
    requires TablesOk(prefix, TablesAt(nodes, prefix)) && ChoiceAt(nodes, prefix) == Some(strategy)
    ensures TablesAt(nodes, prefix) == TablesAt(nodes, prefix).(strategyChoice := Some(NewChoice(prefix, strategy)))
  {
  }

  lemma ChoiceTablesOk(prefix: Name, t: Tables, u: Tables)
    requires TablesOk(prefix, t) && u == t.(strategyChoice := u.strategyChoice)
    requires u.strategyChoice.Some? ==> u.strategyChoice.value == NewChoice(prefix, u.strategyChoice.value.strategy)
    ensures TablesOk(prefix, u) && (u.strategyChoice.Some? ==> HasTableEntries(u))
  {
  }

  lemma ClearedTables(nodes: Nodes, s: set<Name>)
    ensures forall n :: n in nodes ==>
      Cleared(nodes, s)[n].tables == if n in s then ClearInfo(nodes[n].tables) else nodes[n].tables
  {
  }

  /** Names whose StrategyInfo an erasure clears. */
  ghost function ErasureClears(nodes: Nodes, prefix: Name): set<Name>
    requires Ready(nodes) && prefix != [] && ChoiceAt(nodes, prefix).Some?
  {
    if ChoiceAt(nodes, prefix).value == Effective(nodes, Parent(prefix)) then {} else Region(nodes, prefix)
  }

  /** The tables at n once the choice at prefix is gone. */
  function WithoutChoice(nodes: Nodes, prefix: Name, n: Name): Tables {
    if n == prefix then TablesAt(nodes, n).(strategyChoice := None) else TablesAt(nodes, n)
  }

  lemma ErasedTables(nodes: Nodes, prefix: Name)
    requires Ready(nodes) && prefix != [] && ChoiceAt(nodes, prefix).Some?
    ensures var after, s := Erase(nodes, prefix), ErasureClears(nodes, prefix);
      Inv(after) &&
      (forall n :: n in nodes && n !in after ==> !HasTableEntries(WithoutChoice(nodes, prefix, n))) &&
      (forall n :: n in after ==> n in nodes) &&
      forall n :: n in after ==>
        after[n].tables == if n in s then ClearInfo(WithoutChoice(nodes, prefix, n)) else WithoutChoice(nodes, prefix, n)
  {
    hide Change, Region, LinksOk, Cleared, TablesOk, NoneEmpty, ClearInfo, Effective;
    var s := ErasureClears(nodes, prefix);
    var mid := ChangeStrategy(nodes, prefix, ChoiceAt(nodes, prefix).value, Effective(nodes, Parent(prefix)));
    ClearedOk(nodes, Region(nodes, prefix));
    ClearedTables(nodes, Region(nodes, prefix));
    InvParts(mid);
    var t := mid[prefix].tables.(strategyChoice := None);
    TablesAtOk(mid, prefix);
    ChoiceTablesOk(prefix, mid[prefix].tables, t);
    ChangeOk(mid, prefix, t);
    ChangeEntries(mid, prefix, t);
    forall n | n in nodes ensures
      (if n == prefix then t else mid[n].tables) ==
      if n in s then ClearInfo(WithoutChoice(nodes, prefix, n)) else WithoutChoice(nodes, prefix, n)
    {
      ClearInfoParts(nodes[n].tables);
    }
    forall n | n in nodes ensures
      HasTableEntries(ClearInfo(WithoutChoice(nodes, prefix, n))) <==> HasTableEntries(WithoutChoice(nodes, prefix, n))
    {
      ClearInfoParts(WithoutChoice(nodes, prefix, n));
    }
  }

  lemma ClearInfoParts(t: Tables)
    ensures ClearInfo(t).(strategyChoice := None) == ClearInfo(t.(strategyChoice := None))
    ensures ClearInfo(t).strategyChoice == t.strategyChoice
    ensures HasTableEntries(ClearInfo(t)) <==> HasTableEntries(t)
  {
  }

  /** So does erasure. */
  lemma EraseClearsExactlyChanged(nodes: Nodes, prefix: Name)
    requires Ready(nodes) && prefix != []
    ensures var after := Erase(nodes, prefix);
      Ready(after) && ChoiceAt(after, prefix) == None &&
      (forall n :: n in nodes && n !in after ==> !HasTableEntries(WithoutChoice(nodes, prefix, n))) &&
      forall n :: n in after ==> n in nodes && ClearedIfChanged(nodes, after, n, WithoutChoice(nodes, prefix, n))
  {
    hide Inv, Inherits, LinksOk, Cleared, ClearInfo, InfoCleared;
    if ChoiceAt(nodes, prefix).Some? {
      ErasedTables(nodes, prefix);
      hide Erase;
      ErasedChoices(nodes, Erase(nodes, prefix), prefix);
      InvParts(nodes);
      forall n | n in Erase(nodes, prefix) ensures
        ClearedIfChanged(nodes, Erase(nodes, prefix), n, WithoutChoice(nodes, prefix, n))
      {
        ErasedEffective(nodes, Erase(nodes, prefix), prefix, n);
        ClearInfoClears(WithoutChoice(nodes, prefix, n));
      }
    }
  }

  lemma ErasedChoices(nodes: Nodes, after: Nodes, prefix: Name)
    requires forall n :: n in nodes && n !in after ==> !HasTableEntries(WithoutChoice(nodes, prefix, n))
    requires forall n :: n in after ==> n in nodes
    requires forall n :: n in after ==>
      after[n].tables == ClearInfo(WithoutChoice(nodes, prefix, n)) || after[n].tables == WithoutChoice(nodes, prefix, n)
    ensures ChoiceAt(after, prefix).None? && forall m :: m != prefix ==> ChoiceAt(after, m) == ChoiceAt(nodes, m)
  {
    hide ClearInfo;
    forall m | m in after ensures ClearInfo(WithoutChoice(nodes, prefix, m)).strategyChoice == WithoutChoice(nodes, prefix, m).strategyChoice {
      ClearInfoParts(WithoutChoice(nodes, prefix, m));
    }
  }

  /** Where dropping the choice at the prefix changes the effective strategy. */
  lemma ErasedEffective(nodes: Nodes, after: Nodes, prefix: Name, n: Name)
    requires ChoiceAt(nodes, []).Some? && LinksOk(nodes) && prefix != [] && n in nodes
    requires ChoiceAt(nodes, prefix).Some? && ChoiceAt(after, prefix).None?
    requires forall m :: m != prefix ==> ChoiceAt(after, m) == ChoiceAt(nodes, m)
    ensures Effective(after, n) != Effective(nodes, n) <==>
      n in Region(nodes, prefix) && ChoiceAt(nodes, prefix).value != Effective(nodes, Parent(prefix))
  {
    hide Inherits, LinksOk;
    var without := WithTables(nodes, prefix, nodes[prefix].tables.(strategyChoice := None));
    WithTablesLinks(nodes, prefix, nodes[prefix].tables.(strategyChoice := None));
    assert forall m :: ChoiceAt(without, m) == ChoiceAt(after, m);
    EffectiveFollowsChoices(without, after, n);
    EffectiveAbove(without, nodes, prefix, Parent(prefix));
    ChangedExactlyInRegion(without, nodes, prefix, n);
    InheritsFollows(without, nodes, prefix, n);
  }

  lemma {:induction false} EffectiveAbove(a: Nodes, b: Nodes, prefix: Name, n: Name)
    requires ChoiceAt(a, []).Some? && |n| < |prefix| && forall m :: m != prefix ==> ChoiceAt(b, m) == ChoiceAt(a, m)
    ensures ChoiceAt(b, []).Some? && Effective(a, n) == Effective(b, n)
    decreases |n|
  {
    if ChoiceAt(a, n).None? {
      EffectiveAbove(a, b, prefix, Parent(n));
    }
  }

  // PIT entries whose Interest names a packet by its digest

  ghost predicate Changed(a: Nodes, b: Nodes, n: Name)
    requires ChoiceAt(a, []).Some? && ChoiceAt(b, []).Some?
  {
    Effective(b, n) != Effective(a, n)
  }

  /** Such an entry is attached one level above the name that decides on its strategy: a change of the
      choice at that very name passes by, and a choice there shields it from changes above. */
  lemma DigestEntryChange(a: Nodes, b: Nodes, prefix: Name, name: Name)
    requires ChoiceAt(a, []).Some? && ChoiceAt(b, []).Some? && EndsWithDigest(name)
    requires forall m :: m != prefix ==> ChoiceAt(b, m) == ChoiceAt(a, m)
    ensures Changed(a, b, name) && !Changed(a, b, NteName(name)) <==> name == prefix && Changed(a, b, name)
    ensures Changed(a, b, NteName(name)) && !Changed(a, b, name) <==> Changed(a, b, NteName(name)) && ChoiceAt(a, name).Some?
  {
    if name == prefix {
      EffectiveAbove(a, b, prefix, NteName(name));
    }
  }

  /** Insertion leaves such an entry with the StrategyInfo of another strategy if and only if it is at the
      full name and brings a new strategy; it clears the info needlessly if and only if it reaches the
      entry above and the full name has its own choice. */
  lemma InsertMissesDigestEntry(nodes: Nodes, prefix: Name, strategy: nat, name: Name)
    requires Ready(nodes) && EndsWithDigest(name)
    ensures var after := Insert(nodes, prefix, strategy);
      Ready(after) &&
      (Changed(nodes, after, name) && !Changed(nodes, after, NteName(name)) <==>
        name == prefix && strategy != Effective(nodes, name)) &&
      (Changed(nodes, after, NteName(name)) && !Changed(nodes, after, name) <==>
        Changed(nodes, after, NteName(name)) && ChoiceAt(nodes, name).Some?) &&
      (name == prefix && NteName(name) in nodes ==> NteName(name) in after && after[NteName(name)].tables == nodes[NteName(name)].tables)
  {
    hide Inv, Insert, Effective, ClearInfo;
    InsertClearsExactlyChanged(nodes, prefix, strategy);
    var after := Insert(nodes, prefix, strategy);
    InsertedChoices(nodes, prefix, strategy);
    DigestEntryChange(nodes, after, prefix, name);
    EffectiveAt(after, prefix);
    if name == prefix {
      EffectiveAbove(nodes, after, prefix, NteName(name));
    }
  }

  lemma EffectiveAt(nodes: Nodes, n: Name)
    requires ChoiceAt(nodes, []).Some?
    ensures Effective(nodes, n) == if ChoiceAt(nodes, n).Some? then ChoiceAt(nodes, n).value else Effective(nodes, Parent(n))
  {
  }

  lemma InsertedChoices(nodes: Nodes, prefix: Name, strategy: nat)
    requires Ready(nodes)
    ensures forall m :: m != prefix ==> ChoiceAt(Insert(nodes, prefix, strategy), m) == ChoiceAt(nodes, m)
  {
    hide Inv, Insert;
    if ChoiceAt(nodes, prefix) == Some(strategy) {
      SameInsert(nodes, prefix, strategy);
    } else {
      InsertedTables(nodes, prefix, strategy);
      InvLinks(nodes);
      AttachChoices(nodes, prefix, WithChoice(nodes, prefix, strategy, prefix));
    }
  }

  lemma SameInsert(nodes: Nodes, prefix: Name, strategy: nat)
    requires Ready(nodes) && ChoiceAt(nodes, prefix) == Some(strategy)
    ensures Insert(nodes, prefix, strategy) == nodes
  {
  }

  lemma InvLinks(nodes: Nodes)
    requires Inv(nodes)
    ensures LinksOk(nodes)
  {
  }

  /** The Interest named by digest 0 is pending with info of strategy 0; strategy 1 is chosen for it and the
      info stays. */
  lemma DigestEntryKeepsInfo()
    ensures var e := PitEntry([Digest(0)], 0, [], [], Some(9), Some([]));
      var nodes: Nodes := map[[] := Nte(None, [], NO_TABLES.(strategyChoice := Some(NewChoice([], 0)), pits := [e]))];
      Ready(nodes) && Ready(Insert(nodes, [Digest(0)], 1)) && Changed(nodes, Insert(nodes, [Digest(0)], 1), [Digest(0)]) &&
      [] in Insert(nodes, [Digest(0)], 1) && Insert(nodes, [Digest(0)], 1)[[]].tables.pits == [e]
  {
    hide Insert;
    var e := PitEntry([Digest(0)], 0, [], [], Some(9), Some([]));
    var nodes: Nodes := map[[] := Nte(None, [], NO_TABLES.(strategyChoice := Some(NewChoice([], 0)), pits := [e]))];
    assert LinkedUp(nodes, []) && LinkedDown(nodes, []);
    assert PitEntryOk([], e);
    EffectiveAt(nodes, [Digest(0)]);
    InsertMissesDigestEntry(nodes, [Digest(0)], 1, [Digest(0)]);
  }

  /** So does erasure. */
  lemma EraseMissesDigestEntry(nodes: Nodes, prefix: Name, name: Name)
    requires Ready(nodes) && prefix != [] && ChoiceAt(nodes, prefix).Some? && EndsWithDigest(name)
    ensures var after := Erase(nodes, prefix);
      Ready(after) &&
      (Changed(nodes, after, name) && !Changed(nodes, after, NteName(name)) <==>
        name == prefix && ChoiceAt(nodes, prefix).value != Effective(nodes, Parent(prefix))) &&
      (Changed(nodes, after, NteName(name)) && !Changed(nodes, after, name) <==>
        Changed(nodes, after, NteName(name)) && ChoiceAt(nodes, name).Some?) &&
      (name == prefix && NteName(name) in after ==> NteName(name) in nodes && after[NteName(name)].tables == nodes[NteName(name)].tables)
  {
    hide Inv, Erase, Effective, ClearInfo;
    EraseClearsExactlyChanged(nodes, prefix);
    ErasedTables(nodes, prefix);
    var after := Erase(nodes, prefix);
    ErasedChoices(nodes, after, prefix);
    DigestEntryChange(nodes, after, prefix, name);
    EffectiveAt(nodes, prefix);
    EffectiveAt(after, prefix);
    EffectiveAbove(nodes, after, prefix, Parent(prefix));
  }

  lemma RegionCleared(nodes: Nodes, prefix: Name)
    ensures forall n :: n in nodes ==>
      if Inherits(nodes, prefix, n) then InfoCleared(nodes[n].tables, Cleared(nodes, Region(nodes, prefix))[n].tables)
      else Cleared(nodes, Region(nodes, prefix))[n] == nodes[n]
  {
    hide Inherits, ClearInfo, InfoCleared;
    forall n | n in nodes ensures InfoCleared(nodes[n].tables, ClearInfo(nodes[n].tables)) {
      ClearInfoClears(nodes[n].tables);
    }
  }

  class StrategyChoice {
    const nameTree: NameTree
    var nItems: nat

    ghost predicate Valid()
      reads this, nameTree
    {
      Ready(nameTree.nodes) && nItems == |NamesWith(nameTree.nodes, HasChoiceEntry)|
    }

    /** Sets the default strategy on the root of an empty tree. */
    constructor (nameTree: NameTree, defaultStrategy: nat)
      requires nameTree.nodes == map[]
      modifies nameTree
      ensures Valid() && this.nameTree == nameTree && ChoiceAt(nameTree.nodes, []) == Some(defaultStrategy)
    {
      this.nameTree := nameTree;
      nItems := 1;
      new;
      nameTree.LookupEntry([]);
      nameTree.nodes := WithTables(nameTree.nodes, [], NO_TABLES.(strategyChoice := Some(NewChoice([], defaultStrategy))));
      assert NamesWith(nameTree.nodes, HasChoiceEntry) == {[]};
    }

    /** Sets a choice; `strategy` is None when the named strategy is not installed. */
    method InsertChoice(prefix: Name, strategy: Option<nat>) returns (ok: bool)
      requires Valid()
      modifies this, nameTree
      ensures Valid() && ok == strategy.Some?
      ensures nameTree.nodes == if ok then Insert(old(nameTree.nodes), prefix, strategy.value) else old(nameTree.nodes)
    {
      hide Lookup, View, LinksOk, TablesOk, NoneEmpty, ChangeStrategy, NamesWith, Effective;
      if strategy.None? {
        return false;
      }
      ghost var nodes := nameTree.nodes;
      Prepare(nodes, prefix, strategy.value);
      nameTree.LookupEntry(prefix);
      var t := nameTree.nodes[prefix].tables;
      var oldStrategy;
      if t.strategyChoice.Some? {
        if t.strategyChoice.value.strategy == strategy.value {
          return true;
        }
        oldStrategy := t.strategyChoice.value.strategy;
      } else {
        oldStrategy := FindEffectiveStrategy(prefix);
        nItems := nItems + 1;
      }
      nameTree.nodes := WithTables(nameTree.nodes, prefix, t.(strategyChoice := Some(NewChoice(prefix, strategy.value))));
      ChangeFrom(prefix, oldStrategy, strategy.value);
      return true;
    }

    /** Makes the prefix inherit its strategy again; the root cannot. */
    method EraseChoice(prefix: Name)
      requires Valid() && prefix != []
      modifies this, nameTree
      ensures Valid() && nameTree.nodes == Erase(old(nameTree.nodes), prefix)
    {
      hide View, LinksOk, TablesOk, NoneEmpty, NamesWith, Effective, Cleared, EraseIfEmpty, Region;
      ghost var nodes := nameTree.nodes;
      CountErased(nodes, prefix);
      if prefix !in nameTree.nodes || nameTree.nodes[prefix].tables.strategyChoice.None? {
        return;
      }
      var oldStrategy := nameTree.nodes[prefix].tables.strategyChoice.value.strategy;
      var parentStrategy := FindEffectiveStrategy(Parent(prefix));
      ChangeFrom(prefix, oldStrategy, parentStrategy);
      ClearedOk(nodes, Region(nodes, prefix));
      InvParts(nameTree.nodes);
      var t := nameTree.nodes[prefix].tables.(strategyChoice := None);
      WithTablesLinks(nameTree.nodes, prefix, t);
      nameTree.nodes := WithTables(nameTree.nodes, prefix, t);
      var _ := nameTree.EraseEntryIfEmpty(prefix, true);
      assert nameTree.nodes == Erase(nodes, prefix);
      hide Erase, Change, Ready, Inv;
      nItems := nItems - 1;
    }

    method FindEffectiveStrategy(prefix: Name) returns (strategy: nat)
      requires ChoiceAt(nameTree.nodes, []).Some?
      ensures strategy == Effective(nameTree.nodes, prefix)
    {
      var nte := FindLongestPrefixMatch(nameTree.nodes, prefix, HasChoice);
      EffectiveByMatch(nameTree.nodes, prefix, nte);
      strategy := nameTree.nodes[nte.value].tables.strategyChoice.value.strategy;
    }

    /** Clears StrategyInfo below the prefix, entry by entry as the enumeration yields them. */
    method ChangeFrom(prefix: Name, oldStrategy: nat, newStrategy: nat)
      requires Inv(nameTree.nodes) && prefix in nameTree.nodes
      modifies nameTree
      ensures nameTree.nodes == ChangeStrategy(old(nameTree.nodes), prefix, oldStrategy, newStrategy)
      ensures nameTree.nodes.Keys == old(nameTree.nodes).Keys
      ensures forall n :: n in nameTree.nodes ==>
        if oldStrategy != newStrategy && Inherits(old(nameTree.nodes), prefix, n)
        then InfoCleared(old(nameTree.nodes)[n].tables, nameTree.nodes[n].tables)
        else nameTree.nodes[n] == old(nameTree.nodes)[n]
    {
      hide Inherits, InfoCleared, Inv, Cleared;
      RegionCleared(nameTree.nodes, prefix);
      if oldStrategy != newStrategy {
        ClearBelow(prefix);
      }
    }

    method ClearBelow(prefix: Name)
      requires Inv(nameTree.nodes) && prefix in nameTree.nodes
      modifies nameTree
      ensures nameTree.nodes == Cleared(old(nameTree.nodes), Region(old(nameTree.nodes), prefix))
    {
      hide Inv, LinksOk, KidsOk, ClearInfo, Inherits, Region, Affected, Cleared, PreOrder;
      ghost var nodes := nameTree.nodes;
      var sel := Affected(nameTree.nodes, prefix);
      InvParts(nodes);
      LinkedKids(nodes);
      ghost var order := PreOrder(KidsOf(nodes), sel, prefix);
      RegionInOrder(nodes, prefix);
      ClearNothing(nodes);
      var it := Advance(nameTree.nodes, sel, Iterator(None, Some(prefix), false));
      ghost var i := 0;
      while it.entry.Some?
        invariant i <= |order| && (it.entry.None? ==> i == |order|)
        invariant nameTree.nodes == Cleared(nodes, Elements(order[..i]))
        invariant it.ref.Some? ==> it.ref.value in nodes
        invariant it.entry.Some? ==> it.ref.Some? && it.ref.value <= it.entry.value && it.entry.value in nodes
        invariant it.entry.Some? ==> i < |order| && it.entry.value == order[i]
        invariant it.entry.Some? ==> Rest(KidsOf(nodes), sel, it) == order[i + 1..]
        decreases |order| - i
      {
        var n := it.entry.value;
        ClearOneMore(nodes, order, i);
        nameTree.nodes := WithTables(nameTree.nodes, n, ClearInfo(nameTree.nodes[n].tables));
        ClearedOk(nodes, Elements(order[..i + 1]));
        InvParts(nameTree.nodes);
        it := Advance(nameTree.nodes, sel, it);
        i := i + 1;
      }
      assert order[..i] == order;
    }
  }

  ghost function Elements(s: seq<Name>): set<Name> {
    set n | n in s
  }

  lemma ClearNothing(nodes: Nodes)
    ensures Cleared(nodes, Elements([])) == nodes
  {
  }

  lemma ClearOneMore(nodes: Nodes, order: seq<Name>, i: nat)
    requires i < |order| && NoDuplicates(order) && order[i] in nodes
    ensures var cleared := Cleared(nodes, Elements(order[..i]));
      WithTables(cleared, order[i], ClearInfo(cleared[order[i]].tables)) == Cleared(nodes, Elements(order[..i + 1]))
  {
    assert order[..i + 1] == order[..i] + [order[i]];
    assert order[i] !in order[..i];
  }

  /** The enumeration yields the region, each name once. */
  lemma RegionInOrder(nodes: Nodes, prefix: Name)
    requires LinksOk(nodes) && prefix in nodes && KidsOk(KidsOf(nodes))
    ensures var order := PreOrder(KidsOf(nodes), Affected(nodes, prefix), prefix);
      NoDuplicates(order) && Elements(order) == Region(nodes, prefix)
  {
    hide LinksOk, KidsOk, Inherits, Affected, PreOrder;
    PreOrderDistinct(KidsOf(nodes), Affected(nodes, prefix), prefix);
    forall n ensures n in Elements(PreOrder(KidsOf(nodes), Affected(nodes, prefix), prefix)) <==> n in Region(nodes, prefix) {
      RegionEnumerated(nodes, prefix, n);
    }
  }

  predicate HasChoiceEntry(t: Tables) {
    t.strategyChoice.Some?
  }

  /** What InsertChoice relies on before it changes anything. */
  lemma Prepare(nodes: Nodes, prefix: Name, strategy: nat)
    requires Ready(nodes)
    ensures LinksOk(nodes) && (prefix in nodes ==> Lookup(nodes, prefix) == nodes)
    ensures var base := Lookup(nodes, prefix);
      base[prefix].tables == TablesAt(nodes, prefix) && ChoiceAt(base, []).Some? &&
      Effective(base, prefix) == Effective(nodes, prefix)
    ensures ChoiceAt(nodes, prefix).Some? ==> Effective(nodes, prefix) == ChoiceAt(nodes, prefix).value
    ensures Ready(Insert(nodes, prefix, strategy))
    ensures Inv(Attach(nodes, prefix, TablesAt(nodes, prefix).(strategyChoice := Some(NewChoice(prefix, strategy)))))
    ensures NamesWith(Insert(nodes, prefix, strategy), HasChoiceEntry) == NamesWith(nodes, HasChoiceEntry) + {prefix}
    ensures prefix in NamesWith(nodes, HasChoiceEntry) <==> ChoiceAt(nodes, prefix).Some?
  {
    hide Lookup, LinksOk, TablesOk, NoneEmpty;
    InvParts(nodes);
    LookupOk(nodes, prefix);
    EffectiveFollowsChoices(nodes, Lookup(nodes, prefix), prefix);
    if prefix in nodes {
      LookupPresent(nodes, prefix);
    }
    var t := TablesAt(nodes, prefix).(strategyChoice := Some(NewChoice(prefix, strategy)));
    TablesAtOk(nodes, prefix);
    ChoiceTablesOk(prefix, TablesAt(nodes, prefix), t);
    AttachOk(nodes, prefix, t);
    InsertClearsExactlyChanged(nodes, prefix, strategy);
    InsertedNames(nodes, prefix, strategy);
  }

  lemma InsertedNames(nodes: Nodes, prefix: Name, strategy: nat)
    requires Ready(nodes)
    ensures NamesWith(Insert(nodes, prefix, strategy), HasChoiceEntry) == NamesWith(nodes, HasChoiceEntry) + {prefix}
  {
    hide Insert, Inv, ClearInfo, Effective;
    var after := Insert(nodes, prefix, strategy);
    InsertClearsExactlyChanged(nodes, prefix, strategy);
    forall n ensures n in NamesWith(after, HasChoiceEntry) <==> n in NamesWith(nodes, HasChoiceEntry) + {prefix} {
      ClearInfoParts(TablesAt(nodes, n));
      ClearInfoParts(TablesAt(nodes, n).(strategyChoice := Some(NewChoice(n, strategy))));
    }
  }

  lemma CountErased(nodes: Nodes, prefix: Name)
    requires Ready(nodes) && prefix != []
    ensures Ready(Erase(nodes, prefix))
    ensures |NamesWith(Erase(nodes, prefix), HasChoiceEntry)| ==
      |NamesWith(nodes, HasChoiceEntry)| - if ChoiceAt(nodes, prefix).Some? then 1 else 0
  {
    hide Erase, Inv, ClearInfo, Effective;
    var after := Erase(nodes, prefix);
    EraseClearsExactlyChanged(nodes, prefix);
    forall n ensures n in NamesWith(after, HasChoiceEntry) <==> n in NamesWith(nodes, HasChoiceEntry) - {prefix} {
      ClearInfoParts(WithoutChoice(nodes, prefix, n));
    }
    var before := NamesWith(nodes, HasChoiceEntry);
    assert NamesWith(after, HasChoiceEntry) == before - {prefix};
    assert prefix in before <==> ChoiceAt(nodes, prefix).Some?;
    if prefix !in before {
      assert before - {prefix} == before;
    }
  }
}
