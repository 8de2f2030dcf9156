/** Runs: any sequence of operations on FIB, PIT, Measurements and StrategyChoice, and of face
    removals, on the one name tree that they share. */
module TableRuns {
  import opened Common
  import opened Names
  import opened NameTree
  import opened TreeTables
  import F = Fib
  import P = Pit
  import M = Measurements
  import S = StrategyChoice
  import C = Cleanup

  datatype Op =
    | InsertFib(prefix: Name)
    | EraseFib(prefix: Name)
    | AddNextHop(prefix: Name, face: nat, cost: nat, sorted: seq<NextHop>)
    | RemoveNextHop(prefix: Name, face: nat)
    | UnregisterNextHop(prefix: Name, face: nat)
    | InsertPit(name: Name, selectors: nat)
    | ErasePit(name: Name, selectors: nat)
    | UpdatePit(name: Name, selectors: nat, update: P.Revision)
    | GetMeasurements(name: Name, now: int)
    | ExtendMeasurements(name: Name, lifetime: nat, now: int)
    | ExpireMeasurements(name: Name)
    | InsertChoice(prefix: Name, strategy: nat)
    | EraseChoice(prefix: Name)
    | RemoveFace(face: nat, order: seq<Name>)

  /** The root choice is never erased; a sort sorts; the names collected in a cleanup are those its pass
      finds; and Fib::removeNextHop by itself is called only where something remains of the name tree
      entry, as it does not look after that. */
  ghost predicate Possible(nodes: Nodes, op: Op)
    requires S.Ready(nodes)
  {
    match op
    case AddNextHop(prefix, face, cost, sorted) =>
      TablesAt(nodes, prefix).fib.Some? &&
      F.SortedFrom(F.WithNextHop(TablesAt(nodes, prefix).fib.value.nextHops, face, cost), sorted)
    case RemoveNextHop(prefix, face) => TablesAt(nodes, prefix).fib.Some? && F.Remains(nodes, prefix, face)
    case EraseChoice(prefix) => prefix != []
    case RemoveFace(face, order) => C.Collected(C.Visited(nodes, face, {}), order)
    case _ => true
  }

  ghost function Apply(nodes: Nodes, op: Op): (r: Nodes)
    requires S.Ready(nodes) && Possible(nodes, op)
  {
    match op
    case InsertFib(prefix) => F.Insert(nodes, prefix)
    case EraseFib(prefix) => F.Erase(nodes, prefix)
    case AddNextHop(prefix, _, _, sorted) => F.SetNextHops(nodes, prefix, sorted)
    case RemoveNextHop(prefix, face) => F.RemoveNextHop(nodes, prefix, face)
    case UnregisterNextHop(prefix, face) => F.UnregisterNextHop(nodes, prefix, face)
    case InsertPit(name, selectors) => P.Insert(nodes, name, selectors)
    case ErasePit(name, selectors) => P.Erase(nodes, name, selectors)
    case UpdatePit(name, selectors, update) => P.Revise(nodes, name, selectors, update)
    case GetMeasurements(name, now) => M.Get(nodes, name, now)
    case ExtendMeasurements(name, lifetime, now) => M.ExtendLifetime(nodes, name, lifetime, now)
    case ExpireMeasurements(name) => M.Cleanup(nodes, name)
    case InsertChoice(prefix, strategy) => S.Insert(nodes, prefix, strategy)
    case EraseChoice(prefix) => S.Erase(nodes, prefix)
    case RemoveFace(face, order) =>
      C.VisitedLinks(nodes, face, {});
      C.EraseAll(C.Visited(nodes, face, {}), order)
  }

  /** The tree once the default strategy is set on the root. */
  function Initial(defaultStrategy: nat): Nodes {
    map[[] := Nte(None, [], NO_TABLES.(strategyChoice := Some(S.NewChoice([], defaultStrategy))))]
  }

  lemma InitialReady(defaultStrategy: nat)
    ensures S.Ready(Initial(defaultStrategy))
  {
    var nodes := Initial(defaultStrategy);
    assert LinkedUp(nodes, []) && LinkedDown(nodes, []);
  }

  /** The tables at one name become t, which has the same strategy choice: the root keeps its. */
  lemma ChoiceKept(nodes: Nodes, after: Nodes, name: Name, t: Tables)
    requires S.Ready(nodes) && Inv(after) && t.strategyChoice == TablesAt(nodes, name).strategyChoice
    requires View(after) == Update(View(nodes), name, t)
    ensures S.Ready(after)
  {
    hide Inv;
    assert [] in View(nodes);
    assert [] in View(after) && View(after)[[]].strategyChoice.Some?;
  }

  lemma AttachReady(nodes: Nodes, name: Name, t: Tables)
    requires S.Ready(nodes) && TablesOk(name, t) && HasTableEntries(t)
    requires t.strategyChoice == TablesAt(nodes, name).strategyChoice
    ensures S.Ready(Attach(nodes, name, t))
  {
    hide Attach, View, TablesOk;
    AttachOk(nodes, name, t);
    ChoiceKept(nodes, Attach(nodes, name, t), name, t);
  }

  lemma ChangeReady(nodes: Nodes, name: Name, t: Tables)
    requires S.Ready(nodes) && name in nodes && TablesOk(name, t) && t.strategyChoice == nodes[name].tables.strategyChoice
    ensures S.Ready(Change(nodes, name, t))
  {
    hide Change, View, TablesOk, LinksOk;
    ChangeOk(nodes, name, t);
    ChoiceKept(nodes, Change(nodes, name, t), name, t);
  }

  lemma SetReady(nodes: Nodes, name: Name, t: Tables)
    requires S.Ready(nodes) && name in nodes && TablesOk(name, t) && HasTableEntries(t)
    requires t.strategyChoice == nodes[name].tables.strategyChoice
    ensures S.Ready(WithTables(nodes, name, t))
  {
    hide View, TablesOk, LinksOk;
    SetOk(nodes, name, t);
    ChoiceKept(nodes, WithTables(nodes, name, t), name, t);
  }

  lemma EraseFibReady(nodes: Nodes, prefix: Name)
    requires S.Ready(nodes)
    ensures S.Ready(F.Erase(nodes, prefix))
  {
    hide LinksOk;
    if prefix in nodes {
      TablesAtOk(nodes, prefix);
      ChangeReady(nodes, prefix, nodes[prefix].tables.(fib := None));
    }
  }

  lemma SetNextHopsReady(nodes: Nodes, prefix: Name, nextHops: seq<NextHop>)
    requires S.Ready(nodes) && OneHopPerFace(nextHops)
    ensures S.Ready(F.SetNextHops(nodes, prefix, nextHops))
  {
    hide LinksOk, OneHopPerFace;
    TablesAtOk(nodes, prefix);
    if TablesAt(nodes, prefix).fib.Some? {
      SetReady(nodes, prefix, nodes[prefix].tables.(fib := Some(nodes[prefix].tables.fib.value.(nextHops := nextHops))));
    }
  }

  lemma RemoveNextHopReady(nodes: Nodes, prefix: Name, face: nat)
    requires S.Ready(nodes) && TablesAt(nodes, prefix).fib.Some? && F.Remains(nodes, prefix, face)
    ensures S.Ready(F.RemoveNextHop(nodes, prefix, face))
  {
    hide LinksOk, TablesOk, NoneEmpty, F.Remains;
    F.RemoveNextHopOk(nodes, prefix, face);
    assert S.ChoiceAt(F.RemoveNextHop(nodes, prefix, face), []) == S.ChoiceAt(nodes, []);
  }

  lemma FibReady(nodes: Nodes, op: Op)
    requires S.Ready(nodes) && (op.InsertFib? || op.EraseFib? || op.AddNextHop? || op.RemoveNextHop? || op.UnregisterNextHop?) && Possible(nodes, op)
    ensures S.Ready(Apply(nodes, op))
  {
    hide Inv, Attach, F.SetNextHops, F.Erase, S.Ready;
    var t := TablesAt(nodes, op.prefix);
    assert TablesOk(op.prefix, t) by { ReadyTables(nodes, op.prefix); }
    match op {
      case InsertFib(prefix) =>
        if t.fib.None? {
          AttachReady(nodes, prefix, t.(fib := Some(FibEntry(prefix, [], Some(prefix)))));
        }
      case EraseFib(prefix) => EraseFibReady(nodes, prefix);
      case AddNextHop(prefix, face, cost, sorted) =>
        F.WithNextHopOk(t.fib.value.nextHops, face, cost);
        F.SortedOk(F.WithNextHop(t.fib.value.nextHops, face, cost), sorted);
        SetNextHopsReady(nodes, prefix, sorted);
      case RemoveNextHop(prefix, face) => RemoveNextHopReady(nodes, prefix, face);
      case UnregisterNextHop(prefix, face) =>
        EraseFibReady(nodes, prefix);
        if t.fib.Some? {
          F.StripFibOk(prefix, t, face);
          if F.StripFib(t.fib.value, face).Some? {
            SetReady(nodes, prefix, t.(fib := F.StripFib(t.fib.value, face)));
          }
        }
    }
  }

  lemma ReadyTables(nodes: Nodes, name: Name)
    requires S.Ready(nodes)
    ensures TablesOk(name, TablesAt(nodes, name)) && LinksOk(nodes)
  {
    TablesAtOk(nodes, name);
  }

  lemma PitReady(nodes: Nodes, op: Op)
    requires S.Ready(nodes) && (op.InsertPit? || op.ErasePit? || op.UpdatePit?)
    ensures S.Ready(Apply(nodes, op))
  {
    hide Inv, Attach, Change, S.Ready, TablesOk, LinksOk, P.Updated;
    var n := NteName(op.name);
    var t := TablesAt(nodes, n);
    ReadyTables(nodes, n);
    var p := P.Position(t.pits, op.name, op.selectors);
    match op {
      case InsertPit(name, selectors) =>
        if p.None? {
          var e := P.NewEntry(name, selectors);
          P.AppendedOk(n, t, e);
          AttachReady(nodes, n, t.(pits := t.pits + [e]));
        }
      case ErasePit(name, selectors) =>
        if p.Some? {
          P.SwapRemovedOk(n, t, p.value);
          ChangeReady(nodes, n, t.(pits := P.SwapRemove(t.pits, p.value)));
        }
      case UpdatePit(name, selectors, update) =>
        if p.Some? {
          P.UpdatedTablesOk(n, t, p.value, update);
          SetReady(nodes, n, t.(pits := t.pits[p.value := P.Updated(t.pits[p.value], update)]));
        }
    }
  }

  lemma MeasurementsReady(nodes: Nodes, op: Op)
    requires S.Ready(nodes) && (op.GetMeasurements? || op.ExtendMeasurements? || op.ExpireMeasurements?)
    ensures S.Ready(Apply(nodes, op))
  {
    hide Inv, Attach, Change, S.Ready, LinksOk;
    var t := TablesAt(nodes, op.name);
    ReadyTables(nodes, op.name);
    match op {
      case GetMeasurements(name, now) =>
        if t.measurements.None? {
          AttachReady(nodes, name, t.(measurements := Some(M.NewEntry(name, now))));
        }
      case ExtendMeasurements(name, lifetime, now) =>
        if t.measurements.Some? {
          SetReady(nodes, name, t.(measurements := Some(t.measurements.value.(expiry := now + lifetime))));
        }
      case ExpireMeasurements(name) =>
        if name in nodes {
          ChangeReady(nodes, name, t.(measurements := None));
        }
    }
  }

  lemma ChoiceReady(nodes: Nodes, op: Op)
    requires S.Ready(nodes) && (op.InsertChoice? || op.EraseChoice?) && Possible(nodes, op)
    ensures S.Ready(Apply(nodes, op))
  {
    hide S.Ready, S.Insert, S.Erase, S.ClearedIfChanged;
    match op {
      case InsertChoice(prefix, strategy) => S.InsertClearsExactlyChanged(nodes, prefix, strategy);
      case EraseChoice(prefix) => S.EraseClearsExactlyChanged(nodes, prefix);
    }
  }

  lemma FaceReady(nodes: Nodes, op: Op)
    requires S.Ready(nodes) && op.RemoveFace? && Possible(nodes, op)
    ensures S.Ready(Apply(nodes, op))
  {
    hide Inv, LinksOk, C.Visited, C.EraseAll, C.Collected;
    InvParts(nodes);
    C.VisitedLinks(nodes, op.face, {});
    C.CleanupOk(nodes, op.face, op.order);
    assert TablesAt(Apply(nodes, op), []) == C.Strip(TablesAt(nodes, []), op.face);
  }

  /** One operation keeps the invariant. */
  lemma StepReady(nodes: Nodes, op: Op)
    requires S.Ready(nodes) && Possible(nodes, op)
    ensures S.Ready(Apply(nodes, op))
  {
    hide Apply, Possible, S.Ready;
    match op {
      case InsertFib(_) | EraseFib(_) | AddNextHop(_, _, _, _) | RemoveNextHop(_, _) | UnregisterNextHop(_, _) => FibReady(nodes, op);
      case InsertPit(_, _) | ErasePit(_, _) | UpdatePit(_, _, _) => PitReady(nodes, op);
      case GetMeasurements(_, _) | ExtendMeasurements(_, _, _) | ExpireMeasurements(_) => MeasurementsReady(nodes, op);
      case InsertChoice(_, _) | EraseChoice(_) => ChoiceReady(nodes, op);
      case RemoveFace(_, _) => FaceReady(nodes, op);
    }
  }

  /** The tree after a run, where calls that the source never makes are left out. */
  ghost function Run(defaultStrategy: nat, ops: seq<Op>): (r: Nodes)
    ensures S.Ready(r)
  {
    if ops == [] then InitialReady(defaultStrategy); Initial(defaultStrategy)
    else
      var before := Run(defaultStrategy, ops[..|ops| - 1]);
      var op := ops[|ops| - 1];
      if !Possible(before, op) then before
      else
        StepReady(before, op);
        Apply(before, op)
  }

  /** After any run: links are mutually inverse and prefix-closed, back links right, and no entry is
      empty; so the entries are the prefixes of the names in use. */
  lemma AnyRun(defaultStrategy: nat, ops: seq<Op>)
    ensures var nodes := Run(defaultStrategy, ops);
      LinksOk(nodes) && NoneEmpty(nodes) &&
      (forall n :: n in nodes ==> TablesOk(n, nodes[n].tables)) &&
      (forall n :: n in nodes <==> exists x :: x in nodes && HasTableEntries(nodes[x].tables) && n <= x)
  {
    hide Run, TablesOk, LinksOk, NoneEmpty, HasTableEntries;
    var nodes := Run(defaultStrategy, ops);
    assert Inv(nodes);
    InvParts(nodes);
    EntriesAreUsedPrefixes(nodes);
  }

  /** After any run no two PIT entries are for the same Interest. */
  lemma OnePitEntryAfterAnyRun(defaultStrategy: nat, ops: seq<Op>, n: Name, i: int, m: Name, j: int)
    requires var nodes := Run(defaultStrategy, ops);
      P.Holds(nodes, n, i) && P.Holds(nodes, m, j) && P.KeyAt(nodes, n, i) == P.KeyAt(nodes, m, j)
    ensures n == m && i == j
  {
    hide Run, Inv;
    var nodes := Run(defaultStrategy, ops);
    assert Inv(nodes);
    P.OneEntryPerInterest(nodes, n, i, m, j);
  }
}
