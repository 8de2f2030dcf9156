/** Content Store insertion and its priority FIFO replacement policy (table/cs.cpp, cs-policy.cpp,
    cs-policy-priority-fifo.cpp). An index iterator is modelled by the full name it points to. */
module CsPolicy {
  import opened Common
  import opened Names
  import opened CsOrder
  import opened CsLookup

  datatype Queue = Unsolicited | Stale | Fifo

  /** The index; the limit; the three queues; for each entry the queue it is in; and the pending
      events that move an entry to the stale queue, with their times. */
  datatype Store = Store(table: seq<Entry>, limit: nat,
                         unsolicited: seq<Name>, stale: seq<Name>, fifo: seq<Name>,
                         info: map<Name, Queue>, timers: map<Name, int>)

  function StoredName(e: Entry): Name {
    FullName(e.data)
  }

  function QueueAt(s: Store, q: Queue): seq<Name> {
    match q
    case Unsolicited => s.unsolicited
    case Stale => s.stale
    case Fifo => s.fifo
  }

  function WithQueue(s: Store, q: Queue, names: seq<Name>): Store {
    match q
    case Unsolicited => s.(unsolicited := names)
    case Stale => s.(stale := names)
    case Fifo => s.(fifo := names)
  }

  function StaleTime(d: Data, now: int): Option<int> {
    if d.freshness >= 0 then Some(now + d.freshness) else None
  }

  function AttachQueue(s: Store, e: Entry, now: int): Store {
    var n := StoredName(e);
    var q := if e.unsolicited then Unsolicited else if IsStale(e, now) then Stale else Fifo;
    var r := WithQueue(s, q, QueueAt(s, q) + [n]);
    r.(info := s.info[n := q],
       timers := if q == Fifo && e.staleTime.Some? then s.timers[n := now + e.data.freshness] else s.timers)
  }

  function DetachQueue(s: Store, n: Name): Store
    requires n in s.info
  {
    var q := s.info[n];
    var r := WithQueue(s, q, Remove(QueueAt(s, q), n));
    r.(info := s.info - {n}, timers := if q == Fifo then s.timers - {n} else s.timers)
  }

  /** The event of an entry fires. */
  function MoveToStaleQueue(s: Store, n: Name): Store {
    s.(fifo := Remove(s.fifo, n), stale := s.stale + [n], info := s.info[n := Stale], timers := s.timers - {n})
  }

  function EraseEntry(table: seq<Entry>, n: Name): seq<Entry> {
    if table == [] then []
    else if StoredName(table[0]) == n then table[1..]
    else [table[0]] + EraseEntry(table[1..], n)
  }

  /** The entry to go first. */
  function Victim(s: Store): Name
    requires s.unsolicited + s.stale + s.fifo != []
  {
    if s.unsolicited != [] then s.unsolicited[0]
    else if s.stale != [] then s.stale[0]
    else s.fifo[0]
  }

  function EvictOne(s: Store): Store
    requires s.unsolicited + s.stale + s.fifo != [] && Victim(s) in s.info
  {
    var n := Victim(s);
    var r := DetachQueue(s, n);
    r.(table := EraseEntry(s.table, n))
  }

  /** Names in the index. */
  ghost function NamesIn(table: seq<Entry>): set<Name> {
    set i | 0 <= i < |table| :: NameAt(table, i)
  }

  /** A queue holds exactly the names recorded for it, each once. */
  ghost predicate QueueOk(s: Store, q: Queue) {
    NoDuplicates(QueueAt(s, q)) && forall n :: n in QueueAt(s, q) <==> n in s.info && s.info[n] == q
  }

  /** Every entry in a queue is in one of the three. */
  ghost predicate QueuesOk(s: Store) {
    |s.unsolicited| + |s.stale| + |s.fifo| == |s.info| && forall q :: QueueOk(s, q)
  }

  /** An attached entry is where its attributes say, and its event is pending exactly if it is in
      the last queue and can go stale. */
  ghost predicate EntryOk(info: map<Name, Queue>, timers: map<Name, int>, e: Entry, now: int) {
    var n := StoredName(e);
    n in info &&
    (info[n] == Unsolicited <==> e.unsolicited) &&
    (info[n] == Stale ==> e.staleTime.Some? && e.staleTime.value <= now) &&
    (n in timers <==> info[n] == Fifo && e.staleTime.Some?) &&
    (n in timers ==> timers[n] == e.staleTime.value)
  }

  ghost predicate EntriesOk(table: seq<Entry>, info: map<Name, Queue>, timers: map<Name, int>, now: int) {
    timers.Keys <= info.Keys &&
    forall i {:trigger table[i]} :: 0 <= i < |table| && StoredName(table[i]) in info ==> EntryOk(info, timers, table[i], now)
  }

  /** All is well, except that some entries may not be in any queue. */
  ghost predicate Loose(s: Store, now: int) {
    Sorted(s.table) && s.info.Keys <= NamesIn(s.table) && QueuesOk(s) && EntriesOk(s.table, s.info, s.timers, now)
  }

  /** The queues partition the index. */
  ghost predicate Ok(s: Store, now: int) {
    Loose(s, now) && s.info.Keys == NamesIn(s.table)
  }

  lemma DistinctNames(table: seq<Entry>, i: int, j: int)
    requires Sorted(table) && 0 <= i < |table| && 0 <= j < |table| && i != j
    ensures NameAt(table, i) != NameAt(table, j)
  {
    Ascending(table, if i < j then i else j, if i < j then j else i);
    CompareAntisymmetric(NameAt(table, i), NameAt(table, j));
    CompareAntisymmetric(NameAt(table, j), NameAt(table, i));
  }

  lemma OnlyOne(table: seq<Entry>, i: int)
    requires Sorted(table) && 0 <= i < |table|
    ensures forall j {:trigger table[j]} :: 0 <= j < |table| && StoredName(table[j]) == StoredName(table[i]) ==> j == i
  {
    forall j | 0 <= j < |table| && j != i ensures StoredName(table[j]) != StoredName(table[i]) {
      DistinctNames(table, j, i);
    }
  }

  lemma Named(table: seq<Entry>, n: Name)
    ensures n in NamesIn(table) <==> exists i {:trigger table[i]} :: 0 <= i < |table| && StoredName(table[i]) == n
  {
    if n in NamesIn(table) {
      var i :| 0 <= i < |table| && NameAt(table, i) == n;
      assert StoredName(table[i]) == n;
    }
    forall i {:trigger table[i]} | 0 <= i < |table| ensures NameAt(table, i) in NamesIn(table) {
    }
  }

  lemma {:induction false} NamesCount(table: seq<Entry>)
    requires Sorted(table)
    ensures |NamesIn(table)| == |table|
  {
    hide Sorted, NamesIn, StoredName;
    if table == [] {
      NoNames();
    } else {
      var last := |table| - 1;
      var init := table[..last];
      SortedInit(table);
      NamesCount(init);
      NamesOfInit(table);
      OnlyOne(table, last);
      Named(init, StoredName(table[last]));
      assert forall i {:trigger init[i]} :: 0 <= i < |init| ==> init[i] == table[i];
    }
  }

  lemma NoNames()
    ensures NamesIn([]) == {}
  {
  }

  lemma SortedInit(table: seq<Entry>)
    requires Sorted(table) && table != []
    ensures Sorted(table[..|table| - 1])
  {
    hide Less;
  }

  lemma NamesOfInit(table: seq<Entry>)
    requires table != []
    ensures NamesIn(table) == NamesIn(table[..|table| - 1]) + {StoredName(table[|table| - 1])}
  {
    var init, last := table[..|table| - 1], |table| - 1;
    hide NamesIn, StoredName;
    assert forall i {:trigger init[i]} {:trigger table[i]} :: 0 <= i < last ==> init[i] == table[i];
    forall n ensures n in NamesIn(table) <==> n in NamesIn(init) || n == StoredName(table[last]) {
      Named(table, n);
      Named(init, n);
    }
  }

  lemma {:induction false} RemoveCount(q: seq<Name>, x: Name)
    requires x in q
    ensures |Remove(q, x)| == |q| - 1
  {
    if q[0] != x {
      RemoveCount(q[1..], x);
    }
  }

  /** A change for one name leaves the entries of other names right. */
  lemma EntriesFrame(table: seq<Entry>, a: Store, b: Store, n: Name, now: int)
    requires EntriesOk(table, a.info, a.timers, now)
    requires forall m :: m != n ==> (m in a.info <==> m in b.info) && (m in a.info ==> a.info[m] == b.info[m])
    requires forall m :: m != n ==> (m in a.timers <==> m in b.timers) && (m in a.timers ==> a.timers[m] == b.timers[m])
    requires n in b.timers ==> n in b.info
    requires forall i {:trigger table[i]} :: 0 <= i < |table| && StoredName(table[i]) == n && n in b.info ==>
      EntryOk(b.info, b.timers, table[i], now)
    ensures EntriesOk(table, b.info, b.timers, now)
  {
    forall i | 0 <= i < |table| && StoredName(table[i]) in b.info ensures EntryOk(b.info, b.timers, table[i], now) {
      if StoredName(table[i]) != n {
        assert EntryOk(a.info, a.timers, table[i], now);
      }
    }
  }

  /** A queue follows a change for one name. */
  lemma QueueFollows(a: Store, b: Store, q: Queue, n: Name)
    requires QueueOk(a, q) && NoDuplicates(QueueAt(b, q))
    requires forall m :: m != n ==> (m in a.info <==> m in b.info) && (m in a.info ==> a.info[m] == b.info[m])
    requires forall m :: m in QueueAt(b, q) <==> if m == n then n in b.info && b.info[n] == q else m in QueueAt(a, q)
    ensures QueueOk(b, q)
  {
  }

  lemma AttachQueues(s: Store, e: Entry, now: int)
    requires QueuesOk(s) && StoredName(e) !in s.info
    ensures QueuesOk(AttachQueue(s, e, now))
  {
    hide NoDuplicates, StoredName, IsStale;
    var n, r := StoredName(e), AttachQueue(s, e, now);
    forall q ensures QueueOk(r, q) {
      assert QueueOk(s, q);
      AppendMembers(QueueAt(s, q), n);
      hide QueueOk;
      assert NoDuplicates(QueueAt(r, q));
      assert forall m :: m in QueueAt(r, q) <==> if m == n then n in r.info && r.info[n] == q else m in QueueAt(s, q);
      QueueFollows(s, r, q, n);
    }
  }

  lemma DetachQueues(s: Store, n: Name)
    requires QueuesOk(s) && n in s.info
    ensures QueuesOk(DetachQueue(s, n)) && DetachQueue(s, n).info.Keys == s.info.Keys - {n}
  {
    hide NoDuplicates, Remove;
    var r := DetachQueue(s, n);
    assert QueueOk(s, s.info[n]);
    RemoveCount(QueueAt(s, s.info[n]), n);
    assert r.info.Keys == s.info.Keys - {n};
    assert |r.info| == |s.info| - 1 by { CountWithout(s.info, n); }
    forall q ensures QueueOk(r, q) {
      assert QueueOk(s, q);
      RemoveMembers(QueueAt(s, q), n);
      QueueFollows(s, r, q, n);
    }
  }

  lemma CountWithout(info: map<Name, Queue>, n: Name)
    requires n in info
    ensures |info - {n}| == |info| - 1
  {
    assert (info - {n}).Keys == info.Keys - {n};
  }

  /** Attaching an entry that is in no queue. */
  lemma AttachOk(s: Store, i: int, now: int)
    requires Loose(s, now) && 0 <= i < |s.table| && StoredName(s.table[i]) !in s.info
    requires s.table[i].staleTime == StaleTime(s.table[i].data, now)
    ensures var r := AttachQueue(s, s.table[i], now);
      Loose(r, now) && r.info.Keys == s.info.Keys + {StoredName(s.table[i])} && r.table == s.table && r.limit == s.limit
  {
    hide QueuesOk, Sorted, NamesIn;
    var e := s.table[i];
    var r := AttachQueue(s, e, now);
    AttachQueues(s, e, now);
    OnlyOne(s.table, i);
    Named(s.table, StoredName(e));
    assert r.info.Keys == s.info.Keys + {StoredName(e)};
    EntriesFrame(s.table, s, r, StoredName(e), now);
  }

  lemma DetachOk(s: Store, n: Name, now: int)
    requires Loose(s, now) && n in s.info
    ensures var r := DetachQueue(s, n);
      Loose(r, now) && r.info.Keys == s.info.Keys - {n} && r.table == s.table && r.limit == s.limit
  {
    hide QueuesOk, Sorted, NamesIn, Remove;
    var r := DetachQueue(s, n);
    DetachQueues(s, n);
    Named(s.table, n);
    var j :| 0 <= j < |s.table| && StoredName(s.table[j]) == n;
    assert EntryOk(s.info, s.timers, s.table[j], now);
    EntriesFrame(s.table, s, r, n, now);
  }

  /** Time for an entry to move to the stale queue. */
  lemma MoveOk(s: Store, n: Name, now: int)
    requires Ok(s, now) && n in s.timers && s.timers[n] <= now
    ensures var r := MoveToStaleQueue(s, n);
      Ok(r, now) && r.table == s.table && r.limit == s.limit && r.info == s.info[n := Stale] && r.timers == s.timers - {n} &&
      r.stale == s.stale + [n] && r.unsolicited == s.unsolicited &&
      exists i :: 0 <= i < |s.fifo| && s.fifo[i] == n && r.fifo == s.fifo[..i] + s.fifo[i + 1..]
  {
    hide QueuesOk, Sorted, NamesIn, Remove;
    var r := MoveToStaleQueue(s, n);
    Named(s.table, n);
    var j :| 0 <= j < |s.table| && StoredName(s.table[j]) == n;
    assert EntryOk(s.info, s.timers, s.table[j], now);
    OnlyOne(s.table, j);
    var k := FifoWithout(s, n);
    MoveQueues(s, n);
    assert r.info.Keys == s.info.Keys;
    EntriesFrame(s.table, s, r, n, now);
  }

  lemma FifoWithout(s: Store, n: Name) returns (i: nat)
    requires QueuesOk(s) && n in s.info && s.info[n] == Fifo
    ensures i < |s.fifo| && s.fifo[i] == n && Remove(s.fifo, n) == s.fifo[..i] + s.fifo[i + 1..]
  {
    hide Remove;
    assert QueueOk(s, Fifo);
    i :| 0 <= i < |s.fifo| && s.fifo[i] == n;
    RemoveSplices(s.fifo, i);
  }

  lemma MoveQueues(s: Store, n: Name)
    requires QueuesOk(s) && n in s.info && s.info[n] == Fifo
    ensures QueuesOk(MoveToStaleQueue(s, n))
  {
    hide NoDuplicates, Remove;
    var r := MoveToStaleQueue(s, n);
    assert QueueOk(s, Fifo) && QueueOk(s, Stale);
    RemoveCount(s.fifo, n);
    RemoveMembers(s.fifo, n);
    AppendMembers(s.stale, n);
    assert r.info.Keys == s.info.Keys;
    forall q ensures QueueOk(r, q) {
      assert QueueOk(s, q);
      QueueFollows(s, r, q, n);
    }
  }

  lemma SortedWithout(table: seq<Entry>, i: int)
    requires Sorted(table) && 0 <= i < |table|
    ensures Sorted(table[..i] + table[i + 1..])
  {
    hide Less;
    var r := table[..i] + table[i + 1..];
    assert forall k {:trigger r[k]} :: 0 <= k < |r| ==> r[k] == table[if k < i then k else k + 1];
  }

  lemma {:induction false} EraseEntryOk(table: seq<Entry>, n: Name)
    requires Sorted(table) && n in NamesIn(table)
    ensures var r := EraseEntry(table, n);
      Sorted(r) && |r| == |table| - 1 && forall e :: e in r <==> e in table && StoredName(e) != n
  {
    Named(table, n);
    var i :| 0 <= i < |table| && StoredName(table[i]) == n;
    ErasedAt(table, n, i);
    OnlyOne(table, i);
    SortedWithout(table, i);
    hide Sorted, StoredName, EraseEntry, NamesIn;
    MembersWithout(table, i);
  }

  lemma MembersWithout(table: seq<Entry>, i: int)
    requires 0 <= i < |table| && forall k :: 0 <= k < |table| && k != i ==> table[k] != table[i]
    ensures forall e :: e in table[..i] + table[i + 1..] <==> e in table && e != table[i]
  {
    var r := table[..i] + table[i + 1..];
    assert forall k {:trigger r[k]} :: 0 <= k < |r| ==> r[k] == table[if k < i then k else k + 1];
    forall k | 0 <= k < |table| && k != i ensures table[k] in r {
      assert r[if k < i then k else k - 1] == table[k];
    }
  }

  lemma {:induction false} ErasedAt(table: seq<Entry>, n: Name, i: int)
    requires Sorted(table) && 0 <= i < |table| && StoredName(table[i]) == n
    ensures EraseEntry(table, n) == table[..i] + table[i + 1..]
  {
    if i > 0 {
      DistinctNames(table, 0, i);
      assert table[1..][i - 1] == table[i] && Sorted(table[1..]);
      hide Sorted, StoredName, Less;
      ErasedAt(table[1..], n, i - 1);
      assert table[..i] == [table[0]] + table[1..][..i - 1];
    }
  }

  /** What eviction of one entry does to the queues. */
  lemma VictimLeaves(s: Store)
    requires QueuesOk(s) && s.info.Keys != {}
    ensures s.unsolicited + s.stale + s.fifo != [] && Victim(s) in s.info
    ensures var r := EvictOne(s);
      r.unsolicited == Drop(s.unsolicited, 1) &&
      r.stale == Drop(s.stale, 1 - |s.unsolicited|) &&
      r.fifo == Drop(s.fifo, 1 - |s.unsolicited| - |s.stale|)
  {
    hide NoDuplicates, EraseEntry;
    assert QueueOk(s, Unsolicited) && QueueOk(s, Stale) && QueueOk(s, Fifo);
    assert Victim(s) in QueueAt(s, s.info[Victim(s)]);
  }

  lemma InIndex(table: seq<Entry>, e: Entry)
    requires e in table
    ensures StoredName(e) in NamesIn(table)
  {
    var i :| 0 <= i < |table| && table[i] == e;
    Named(table, StoredName(e));
  }

  /** Evicting the first entry of the first non-empty queue. */
  lemma EvictOneOk(s: Store, now: int)
    requires Ok(s, now) && s.table != []
    ensures s.unsolicited + s.stale + s.fifo != [] && Victim(s) in s.info
    ensures var r := EvictOne(s);
      Ok(r, now) && |r.table| == |s.table| - 1 && r.limit == s.limit && r.info.Keys <= s.info.Keys &&
      r.unsolicited == Drop(s.unsolicited, 1) &&
      r.stale == Drop(s.stale, 1 - |s.unsolicited|) &&
      r.fifo == Drop(s.fifo, 1 - |s.unsolicited| - |s.stale|) &&
      forall e :: e in r.table <==> e in s.table && StoredName(e) in r.info
  {
    hide Sorted, NamesIn, EntriesOk, QueuesOk, StoredName, EraseEntry, Drop, DetachQueue, Victim;
    InIndex(s.table, s.table[0]);
    VictimLeaves(s);
    var n := Victim(s);
    DetachOk(s, n, now);
    EraseEntryOk(s.table, n);
    ErasedNames(s.table, n);
    EntriesSubset(s.table, EvictOne(s).table, DetachQueue(s, n), now);
    assert QueuesOk(EvictOne(s)) by { QueuesOnly(DetachQueue(s, n), EvictOne(s).table); }
    forall e | e in s.table ensures StoredName(e) in s.info {
      InIndex(s.table, e);
    }
  }

  lemma QueuesOnly(s: Store, table: seq<Entry>)
    requires QueuesOk(s)
    ensures QueuesOk(s.(table := table))
  {
    var r := s.(table := table);
    forall q ensures QueueOk(r, q) {
      assert QueueOk(s, q);
    }
  }

  /** What is left of a queue once its first k names are gone. */
  function Drop(q: seq<Name>, k: int): seq<Name> {
    if k <= 0 then q else if k >= |q| then [] else q[k..]
  }

  lemma ErasedNames(table: seq<Entry>, n: Name)
    requires Sorted(table) && n in NamesIn(table)
    ensures NamesIn(EraseEntry(table, n)) == NamesIn(table) - {n}
  {
    hide Sorted, NamesIn, StoredName, EraseEntry;
    var r := EraseEntry(table, n);
    EraseEntryOk(table, n);
    forall m ensures m in NamesIn(r) <==> m in NamesIn(table) - {n} {
      Named(table, m);
      Named(r, m);
      if i :| 0 <= i < |table| && StoredName(table[i]) == m && m != n {
        assert table[i] in r;
      }
      if i :| 0 <= i < |r| && StoredName(r[i]) == m {
        assert r[i] in table;
      }
    }
  }

  lemma EntriesSubset(table: seq<Entry>, rest: seq<Entry>, s: Store, now: int)
    requires EntriesOk(table, s.info, s.timers, now) && forall e :: e in rest ==> e in table
    ensures EntriesOk(rest, s.info, s.timers, now)
  {
    hide EntryOk, StoredName;
    forall i | 0 <= i < |rest| && StoredName(rest[i]) in s.info ensures EntryOk(s.info, s.timers, rest[i], now) {
      assert rest[i] in table;
    }
  }

  /** Evicts until the limit is met. */
  ghost function EvictEntries(s: Store, now: int): Store
    requires Ok(s, now)
    decreases |s.table|
  {
    if |s.table| <= s.limit then s
    else
      EvictOneOk(s, now);
      EvictEntries(EvictOne(s), now)
  }

  /** Eviction takes as many entries as are too many: from the front of the unsolicited queue, then
      of the stale queue, then of the last; the others stay as they are. */
  lemma {:induction false} EvictEntriesOk(s: Store, now: int)
    requires Ok(s, now)
    ensures var r := EvictEntries(s, now); var k := Max(|s.table| - s.limit, 0);
      Ok(r, now) && r.limit == s.limit && |r.table| == Min(|s.table|, s.limit) && r.info.Keys <= s.info.Keys &&
      r.unsolicited == Drop(s.unsolicited, k) &&
      r.stale == Drop(s.stale, k - |s.unsolicited|) &&
      r.fifo == Drop(s.fifo, k - |s.unsolicited| - |s.stale|) &&
      forall e :: e in r.table <==> e in s.table && StoredName(e) in r.info
    decreases |s.table|
  {
    hide Loose, NamesIn, StoredName, EvictOne, Drop;
    if |s.table| <= s.limit {
      AllNamed(s, now);
      DropNothing();
    } else {
      EvictOneOk(s, now);
      EvictEntriesOk(EvictOne(s), now);
      DropStep(s, |s.table| - s.limit);
    }
  }

  lemma AllNamed(s: Store, now: int)
    requires Ok(s, now)
    ensures forall e :: e in s.table ==> StoredName(e) in s.info
  {
    hide Loose, NamesIn;
    forall e | e in s.table ensures StoredName(e) in s.info {
      InIndex(s.table, e);
    }
  }

  lemma DropNothing()
    ensures forall q, k :: k <= 0 ==> Drop(q, k) == q
  {
  }

  lemma DropStep(s: Store, k: int)
    requires k >= 1
    ensures var u, t, f := Drop(s.unsolicited, 1), Drop(s.stale, 1 - |s.unsolicited|), Drop(s.fifo, 1 - |s.unsolicited| - |s.stale|);
      Drop(u, k - 1) == Drop(s.unsolicited, k) &&
      Drop(t, k - 1 - |u|) == Drop(s.stale, k - |s.unsolicited|) &&
      Drop(f, k - 1 - |u| - |t|) == Drop(s.fifo, k - |s.unsolicited| - |s.stale|)
  {
  }

  /** A stored packet arrives again: its times and its queue are renewed, at the same place. */
  function Refreshed(e: Entry, unsolicited: bool, now: int): Entry {
    e.(staleTime := StaleTime(e.data, now), unsolicited := if e.unsolicited && !unsolicited then false else e.unsolicited)
  }

  function Refresh(s: Store, i: nat, unsolicited: bool, now: int): Store
    requires i < |s.table| && StoredName(s.table[i]) in s.info
  {
    var e := Refreshed(s.table[i], unsolicited, now);
    AttachQueue(DetachQueue(s.(table := s.table[i := e]), StoredName(e)), e, now)
  }

  function NewEntry(data: Data, unsolicited: bool, now: int): Entry {
    Entry(data, unsolicited, StaleTime(data, now))
  }

  function Add(s: Store, i: nat, e: Entry): Store
    requires i <= |s.table|
  {
    s.(table := s.table[..i] + [e] + s.table[i..])
  }

  /** The place of a packet in the index, and whether it is stored there. */
  function Place(table: seq<Entry>, data: Data): (nat, bool) {
    var i := LowerBound(table, Stored(data));
    (i, i < |table| && !Less(Stored(data), Stored(table[i].data)))
  }

  /** A change to an entry in no queue. */
  lemma ReplaceOk(s: Store, i: int, e: Entry, now: int)
    requires Loose(s, now) && 0 <= i < |s.table| && StoredName(e) !in s.info && e.data == s.table[i].data
    ensures Loose(s.(table := s.table[i := e]), now) && NamesIn(s.table[i := e]) == NamesIn(s.table)
  {
    hide EntryOk, NoDuplicates, Less, NamesIn;
    var table := s.table[i := e];
    QueuesOnly(s, table);
    forall n ensures n in NamesIn(table) <==> n in NamesIn(s.table) {
      Named(table, n);
      Named(s.table, n);
      assert forall j {:trigger table[j]} {:trigger s.table[j]} :: 0 <= j < |table| ==> StoredName(table[j]) == StoredName(s.table[j]);
    }
  }

  lemma PlaceOk(table: seq<Entry>, data: Data)
    requires Sorted(table) && NoDigest(data.name)
    ensures var (i, found) := Place(table, data);
      found == (FullName(data) in NamesIn(table)) && i <= |table| &&
      (found ==> i < |table| && StoredName(table[i]) == FullName(data)) &&
      (!found ==> Sorted(table[..i] + [NewEntry(data, false, 0)] + table[i..]))
  {
    hide Sorted, NamesIn, LowerBound, Less;
    var i := LowerBound(table, Stored(data));
    var found := Place(table, data).1;
    Named(table, FullName(data));
    forall k | 0 <= k < |table|
      ensures k < i ==> Less(Stored(table[k].data), Stored(data)) && StoredName(table[k]) != FullName(data)
      ensures k > i ==> Less(Stored(data), Stored(table[k].data)) && StoredName(table[k]) != FullName(data)
      ensures k == i ==> (found <==> StoredName(table[k]) == FullName(data)) && (!found ==> Less(Stored(data), Stored(table[k].data)))
    {
      PlaceAt(table, data, k);
    }
    if !found {
      SortedWith(table, i, data);
    }
  }

  lemma PlaceAt(table: seq<Entry>, data: Data, k: int)
    requires Sorted(table) && NoDigest(data.name) && 0 <= k < |table|
    ensures var (i, found) := Place(table, data);
      (k < i ==> Less(Stored(table[k].data), Stored(data)) && StoredName(table[k]) != FullName(data)) &&
      (k > i ==> Less(Stored(data), Stored(table[k].data)) && StoredName(table[k]) != FullName(data)) &&
      (k == i ==> (found <==> StoredName(table[k]) == FullName(data)) && (!found ==> Less(Stored(data), Stored(table[k].data))))
  {
    hide LowerBound, Less;
    var i := LowerBound(table, Stored(data));
    LowerBoundSplits(table, Stored(data), k);
    LessIsCanonical(Stored(table[k].data), Stored(data));
    LessIsCanonical(Stored(data), Stored(table[k].data));
    CompareAntisymmetric(NameAt(table, k), FullName(data));
    CompareAntisymmetric(FullName(data), NameAt(table, k));
    if k > i {
      LowerBoundSplits(table, Stored(data), i);
      CompareAntisymmetric(NameAt(table, i), FullName(data));
      CompareAntisymmetric(FullName(data), NameAt(table, i));
      Ascending(table, i, k);
      CompareTransitive(FullName(data), NameAt(table, i), NameAt(table, k));
    }
  }

  lemma SortedWith(table: seq<Entry>, i: nat, data: Data)
    requires Sorted(table) && NoDigest(data.name) && i <= |table|
    requires forall k :: 0 <= k < i ==> Less(Stored(table[k].data), Stored(data))
    requires forall k :: i <= k < |table| ==> Less(Stored(data), Stored(table[k].data))
    ensures Sorted(table[..i] + [NewEntry(data, false, 0)] + table[i..])
  {
    hide Less;
    var e := NewEntry(data, false, 0);
    var r := table[..i] + [e] + table[i..];
    assert forall k {:trigger r[k]} :: 0 <= k < |r| ==> r[k] == if k < i then table[k] else if k == i then e else table[k - 1];
  }

  /** A new entry, not yet in a queue. */
  lemma AddOk(s: Store, i: nat, e: Entry, now: int)
    requires Loose(s, now) && i <= |s.table| && StoredName(e) !in s.info
    requires Sorted(s.table[..i] + [NewEntry(e.data, false, 0)] + s.table[i..])
    ensures Loose(Add(s, i, e), now) && NamesIn(Add(s, i, e).table) == NamesIn(s.table) + {StoredName(e)}
  {
    hide EntryOk, NoDuplicates, NamesIn;
    var r := Add(s, i, e).table;
    assert Sorted(r) by { SortedAlike(s.table[..i] + [NewEntry(e.data, false, 0)] + s.table[i..], r); }
    hide Sorted;
    QueuesOnly(s, r);
    hide QueuesOk, StoredName;
    assert forall k {:trigger r[k]} :: 0 <= k < |r| ==> r[k] == if k < i then s.table[k] else if k == i then e else s.table[k - 1];
    assert forall k {:trigger s.table[k]} :: 0 <= k < |s.table| ==> s.table[k] == r[if k < i then k else k + 1];
    assert r[i] == e;
    forall n ensures n in NamesIn(r) <==> n in NamesIn(s.table) || n == StoredName(e) {
      Named(r, n);
      Named(s.table, n);
    }
  }

  lemma SortedAlike(a: seq<Entry>, b: seq<Entry>)
    requires Sorted(a) && |a| == |b| && forall k :: 0 <= k < |a| ==> a[k].data == b[k].data
    ensures Sorted(b)
  {
    hide Less;
  }

  /** Cs::insert. */
  ghost function Insert(s: Store, data: Data, unsolicited: bool, noCache: bool, now: int): Store
    requires Ok(s, now) && NoDigest(data.name)
  {
    if s.limit == 0 || noCache then s
    else
      var (i, found) := Place(s.table, data);
      if found then
        PlaceOk(s.table, data);
        Refresh(s, i, unsolicited, now)
      else
        var e := NewEntry(data, unsolicited, now);
        NewOk(s, data, unsolicited, now);
        EvictEntries(AttachQueue(Add(s, i, e), e, now), now)
  }

  lemma NewOk(s: Store, data: Data, unsolicited: bool, now: int)
    requires Ok(s, now) && NoDigest(data.name) && !Place(s.table, data).1
    ensures var e := NewEntry(data, unsolicited, now);
      var r := AttachQueue(Add(s, Place(s.table, data).0, e), e, now);
      Ok(r, now) && r.info.Keys == s.info.Keys + {StoredName(e)} && |r.table| == |s.table| + 1 && r.limit == s.limit &&
      r.unsolicited == s.unsolicited + (if unsolicited then [StoredName(e)] else []) && r.stale == s.stale &&
      r.fifo == s.fifo + if unsolicited then [] else [StoredName(e)]
  {
    hide Loose, NamesIn, Place;
    var i := Place(s.table, data).0;
    var e := NewEntry(data, unsolicited, now);
    assert Sorted(s.table) by { LooseSorted(s, now); }
    PlaceOk(s.table, data);
    AddOk(s, i, e, now);
    assert Add(s, i, e).table[i] == e;
    AttachOk(Add(s, i, e), i, now);
  }

  lemma LooseSorted(s: Store, now: int)
    requires Loose(s, now)
    ensures Sorted(s.table)
  {
  }

  /** The same packet again: it moves to the back of the queue it belongs to now. */
  lemma RefreshOk(s: Store, i: nat, unsolicited: bool, now: int)
    requires Ok(s, now) && i < |s.table| && StoredName(s.table[i]) in s.info
    ensures var r, e := Refresh(s, i, unsolicited, now), Refreshed(s.table[i], unsolicited, now);
      Ok(r, now) && r.table == s.table[i := e] && r.info.Keys == s.info.Keys && r.limit == s.limit &&
      r.info[StoredName(e)] == (if e.unsolicited then Unsolicited else Fifo) &&
      forall n :: n in s.info && n != StoredName(e) ==> r.info[n] == s.info[n]
  {
    hide Loose, NamesIn, Sorted;
    var e := Refreshed(s.table[i], unsolicited, now);
    var n := StoredName(e);
    var d := DetachQueue(s, n);
    DetachOk(s, n, now);
    ReplaceOk(d, i, e, now);
    var t := d.(table := s.table[i := e]);
    assert DetachQueue(s.(table := s.table[i := e]), n) == t;
    AttachOk(t, i, now);
  }

  /** Insertion keeps the queues and the index together and the size within the limit; what a new
      packet pushes out is what stands first. */
  lemma InsertOk(s: Store, data: Data, unsolicited: bool, noCache: bool, now: int)
    requires Ok(s, now) && NoDigest(data.name) && |s.table| <= s.limit
    ensures var r, n := Insert(s, data, unsolicited, noCache, now), FullName(data);
      Ok(r, now) && |r.table| <= r.limit == s.limit &&
      (s.limit == 0 || noCache ==> r == s) &&
      (s.limit > 0 && !noCache ==>
        if n in s.info then r.info.Keys == s.info.Keys
        else
          var k := if |s.table| == s.limit then 1 else 0;
          var u, f := if unsolicited then [n] else [], if unsolicited then [] else [n];
          r.unsolicited == Drop(s.unsolicited + u, k) &&
          r.stale == Drop(s.stale, k - |s.unsolicited + u|) &&
          r.fifo == Drop(s.fifo + f, k - |s.unsolicited + u| - |s.stale|))
  {
    hide Loose, NamesIn, Sorted, Drop, Place, Refresh;
    if s.limit > 0 && !noCache {
      LooseSorted(s, now);
      PlaceOk(s.table, data);
      var (i, found) := Place(s.table, data);
      if found {
        RefreshOk(s, i, unsolicited, now);
      } else {
        var e := NewEntry(data, unsolicited, now);
        NewOk(s, data, unsolicited, now);
        EvictEntriesOk(AttachQueue(Add(s, i, e), e, now), now);
      }
    }
  }

  /** A full store without unsolicited entries does not take an unsolicited packet. */
  lemma UnsolicitedIntoFull(s: Store, data: Data, now: int)
    requires Ok(s, now) && NoDigest(data.name) && |s.table| == s.limit && s.unsolicited == [] && FullName(data) !in s.info
    ensures var r := Insert(s, data, true, false, now);
      r.unsolicited == [] && r.stale == s.stale && r.fifo == s.fifo && FullName(data) !in r.info
  {
    hide Loose, NamesIn, Insert;
    InsertOk(s, data, true, false, now);
    var r := Insert(s, data, true, false, now);
    if s.limit > 0 {
      assert QueuesOk(r) && QueuesOk(s) by { LooseQueues(r, now); LooseQueues(s, now); }
      assert QueueOk(r, Unsolicited) && QueueOk(r, Stale) && QueueOk(r, Fifo);
      assert QueueOk(s, Unsolicited) && QueueOk(s, Stale) && QueueOk(s, Fifo);
    }
  }

  lemma LooseQueues(s: Store, now: int)
    requires Loose(s, now)
    ensures QueuesOk(s)
  {
  }

  /** Nothing stale or fresh goes while a queue before it has entries left. */
  lemma EvictionPriority(s: Store, now: int, n: Name)
    requires Ok(s, now) && n in s.info && n !in EvictEntries(s, now).info
    ensures var r := EvictEntries(s, now);
      (s.info[n] == Stale ==> r.unsolicited == []) &&
      (s.info[n] == Fifo ==> r.unsolicited == [] && r.stale == [])
  {
    hide Loose, NamesIn, EvictEntries;
    var r := EvictEntries(s, now);
    EvictEntriesOk(s, now);
    assert QueuesOk(r) && QueuesOk(s) by { LooseQueues(r, now); LooseQueues(s, now); }
    assert QueueOk(r, Stale) && QueueOk(r, Fifo) && QueueOk(s, Stale) && QueueOk(s, Fifo);
  }

  /** Policy::setLimit. */
  ghost function SetLimit(s: Store, nMaxEntries: nat, now: int): Store
    requires Ok(s, now)
  {
    LimitOnly(s, nMaxEntries, now);
    EvictEntries(s.(limit := nMaxEntries), now)
  }

  lemma LimitOnly(s: Store, nMaxEntries: nat, now: int)
    requires Ok(s, now)
    ensures Ok(s.(limit := nMaxEntries), now)
  {
    QueuesAlike(s, s.(limit := nMaxEntries));
  }

  lemma QueuesAlike(a: Store, b: Store)
    requires QueuesOk(a) && a.info == b.info && forall q :: QueueAt(a, q) == QueueAt(b, q)
    ensures QueuesOk(b)
  {
    assert a.unsolicited == QueueAt(a, Unsolicited) && b.unsolicited == QueueAt(b, Unsolicited);
    assert a.stale == QueueAt(a, Stale) && b.stale == QueueAt(b, Stale);
    assert a.fifo == QueueAt(a, Fifo) && b.fifo == QueueAt(b, Fifo);
    forall q ensures QueueOk(b, q) {
      assert QueueOk(a, q);
    }
  }

  lemma LaterOk(s: Store, a: int, b: int)
    requires Ok(s, a) && a <= b
    ensures Ok(s, b)
  {
    forall i | 0 <= i < |s.table| && StoredName(s.table[i]) in s.info ensures EntryOk(s.info, s.timers, s.table[i], b) {
      assert EntryOk(s.info, s.timers, s.table[i], a);
    }
  }

  datatype Event =
    | Arrive(data: Data, unsolicited: bool, noCache: bool)
    | Limit(nMaxEntries: nat)
    | Move(name: Name)

  datatype Timed = Timed(now: int, event: Event)

  /** Data names carry no digest; an event fires when pending and due. */
  ghost predicate Possible(s: Store, t: Timed) {
    match t.event
    case Arrive(data, _, _) => NoDigest(data.name)
    case Limit(_) => true
    case Move(n) => n in s.timers && s.timers[n] <= t.now
  }

  ghost function Apply(s: Store, t: Timed): Store
    requires Ok(s, t.now) && Possible(s, t)
  {
    match t.event
    case Arrive(data, unsolicited, noCache) => Insert(s, data, unsolicited, noCache, t.now)
    case Limit(nMaxEntries) => SetLimit(s, nMaxEntries, t.now)
    case Move(n) => MoveToStaleQueue(s, n)
  }

  lemma ApplyOk(s: Store, t: Timed)
    requires Ok(s, t.now) && |s.table| <= s.limit && Possible(s, t)
    ensures Ok(Apply(s, t), t.now) && |Apply(s, t).table| <= Apply(s, t).limit
  {
    hide Loose, NamesIn, Insert, EvictEntries;
    match t.event {
      case Arrive(data, unsolicited, noCache) => InsertOk(s, data, unsolicited, noCache, t.now);
      case Limit(nMaxEntries) =>
        LimitOnly(s, nMaxEntries, t.now);
        EvictEntriesOk(s.(limit := nMaxEntries), t.now);
      case Move(n) => MoveOk(s, n, t.now);
    }
  }

  ghost predicate Chronological(events: seq<Timed>) {
    forall i, j :: 0 <= i < j < |events| ==> events[i].now <= events[j].now
  }

  function Empty(limit: nat): Store {
    Store([], limit, [], [], [], map[], map[])
  }

  /** The store after a run; what cannot happen is left out. */
  ghost function Run(limit: nat, events: seq<Timed>): (r: Store)
    requires Chronological(events)
    ensures |r.table| <= r.limit
    ensures events == [] ==> forall now :: Ok(r, now)
    ensures events != [] ==> Ok(r, events[|events| - 1].now)
  {
    if events == [] then
      EmptyOk(limit);
      Empty(limit)
    else
      var init, t := events[..|events| - 1], events[|events| - 1];
      var before := Run(limit, init);
      if init != [] then
        LaterOk(before, init[|init| - 1].now, t.now);
        Advance(before, t)
      else Advance(before, t)
  }

  ghost function Advance(s: Store, t: Timed): (r: Store)
    requires Ok(s, t.now) && |s.table| <= s.limit
    ensures Ok(r, t.now) && |r.table| <= r.limit
  {
    if Possible(s, t) then
      ApplyOk(s, t);
      Apply(s, t)
    else s
  }

  lemma EmptyOk(limit: nat)
    ensures forall now :: Ok(Empty(limit), now)
  {
    var s := Empty(limit);
    forall q ensures QueueOk(s, q) {
    }
  }

  /** After any run each stored entry is in exactly one queue and recorded there; unsolicited entries
      are in the first; and an event is pending exactly for entries of the last that can go stale. */
  lemma AnyRun(limit: nat, events: seq<Timed>, e: Entry)
    requires Chronological(events) && e in Run(limit, events).table
    ensures var s, n := Run(limit, events), StoredName(e);
      |s.table| <= s.limit && |s.unsolicited| + |s.stale| + |s.fifo| == |s.table| &&
      n in s.info &&
      (n in s.unsolicited <==> s.info[n] == Unsolicited) &&
      (n in s.stale <==> s.info[n] == Stale) &&
      (n in s.fifo <==> s.info[n] == Fifo) &&
      (n in s.unsolicited <==> e.unsolicited) &&
      (n in s.timers <==> n in s.fifo && e.staleTime.Some?) &&
      (n in s.timers ==> s.timers[n] == e.staleTime.value)
  {
    hide Run, NamesIn;
    var s := Run(limit, events);
    var now := events[|events| - 1].now by { RunEmpty(limit, events); }
    PartitionOf(s, now, e);
  }

  lemma RunEmpty(limit: nat, events: seq<Timed>)
    requires Chronological(events)
    ensures events == [] ==> Run(limit, events).table == []
  {
  }

  lemma PartitionOf(s: Store, now: int, e: Entry)
    requires Ok(s, now) && e in s.table
    ensures |s.unsolicited| + |s.stale| + |s.fifo| == |s.table|
    ensures EntryOk(s.info, s.timers, e, now)
    ensures QueueOk(s, Unsolicited) && QueueOk(s, Stale) && QueueOk(s, Fifo)
  {
    hide NamesIn, Sorted;
    InIndex(s.table, e);
    NamesCount(s.table);
    assert |s.info| == |s.info.Keys|;
    var i :| 0 <= i < |s.table| && s.table[i] == e;
  }

  class ContentStore {
    var table: seq<Entry>
    var limit: nat
    var unsolicited: seq<Name>
    var stale: seq<Name>
    var fifo: seq<Name>
    var entryInfo: map<Name, Queue>
    var timers: map<Name, int>

    ghost function State(): Store
      reads this
    {
      Store(table, limit, unsolicited, stale, fifo, entryInfo, timers)
    }

    ghost predicate Valid(now: int)
      reads this
    {
      Ok(State(), now) && |table| <= limit
    }

    constructor (nMaxPackets: nat, now: int)
      ensures Valid(now) && State() == Empty(nMaxPackets)
    {
      table, limit, unsolicited, stale, fifo, entryInfo, timers := [], nMaxPackets, [], [], [], map[], map[];
      new;
      EmptyOk(nMaxPackets);
    }

    method InsertData(data: Data, isUnsolicited: bool, noCache: bool, now: int)
      requires Valid(now) && NoDigest(data.name)
      modifies this
      ensures Valid(now) && State() == Insert(old(State()), data, isUnsolicited, noCache, now)
    {
      hide Loose, NamesIn, Place, AttachQueue, DetachQueue;
      ghost var s := State();
      InsertOk(s, data, isUnsolicited, noCache, now);
      if limit == 0 || noCache {
        return;
      }
      LooseSorted(s, now);
      PlaceOk(table, data);
      var (i, found) := Place(table, data);
      if found {
        var e := table[i].(staleTime := StaleTime(table[i].data, now));
        if e.unsolicited && !isUnsolicited {
          e := e.(unsolicited := false);
        }
        table := table[i := e];
        Detach(StoredName(e));
        Attach(e, now);
      } else {
        var e := NewEntry(data, isUnsolicited, now);
        NewOk(s, data, isUnsolicited, now);
        table := table[..i] + [e] + table[i..];
        Attach(e, now);
        Evict(now);
      }
    }

    method ChangeLimit(nMaxEntries: nat, now: int)
      requires Valid(now)
      modifies this
      ensures Valid(now) && State() == SetLimit(old(State()), nMaxEntries, now)
    {
      LimitOnly(State(), nMaxEntries, now);
      limit := nMaxEntries;
      EvictEntriesOk(State(), now);
      Evict(now);
    }

    method Evict(ghost now: int)
      requires Ok(State(), now)
      modifies this
      ensures State() == EvictEntries(old(State()), now)
    {
      while |table| > limit
        invariant Ok(State(), now) && EvictEntries(State(), now) == EvictEntries(old(State()), now)
        decreases |table|
      {
        EvictOneOk(State(), now);
        EvictFirst();
      }
    }

    method EvictFirst()
      requires unsolicited + stale + fifo != [] && Victim(State()) in entryInfo
      modifies this
      ensures State() == EvictOne(old(State()))
    {
      var i;
      if unsolicited != [] {
        i := unsolicited[0];
      } else if stale != [] {
        i := stale[0];
      } else {
        i := fifo[0];
      }
      Detach(i);
      table := EraseEntry(table, i);
    }

    method Attach(e: Entry, now: int)
      modifies this
      ensures State() == AttachQueue(old(State()), e, now)
    {
      var n := StoredName(e);
      if e.unsolicited {
        unsolicited := unsolicited + [n];
        entryInfo := entryInfo[n := Unsolicited];
      } else if IsStale(e, now) {
        stale := stale + [n];
        entryInfo := entryInfo[n := Stale];
      } else {
        if e.staleTime.Some? {
          timers := timers[n := now + e.data.freshness];
        }
        fifo := fifo + [n];
        entryInfo := entryInfo[n := Fifo];
      }
    }

    method Detach(n: Name)
      requires n in entryInfo
      modifies this
      ensures State() == DetachQueue(old(State()), n)
    {
      match entryInfo[n] {
        case Unsolicited => unsolicited := Remove(unsolicited, n);
        case Stale => stale := Remove(stale, n);
        case Fifo =>
          timers := timers - {n};
          fifo := Remove(fifo, n);
      }
      entryInfo := entryInfo - {n};
    }

    /** The event of a fresh entry fires. */
    method MoveToStale(n: Name, now: int)
      requires Valid(now) && n in timers && timers[n] <= now
      modifies this
      ensures Valid(now) && State() == MoveToStaleQueue(old(State()), n)
    {
      hide Loose, NamesIn, Remove;
      MoveOk(State(), n, now);
      timers := timers - {n};
      fifo := Remove(fifo, n);
      stale := stale + [n];
      entryInfo := entryInfo[n := Stale];
    }

    /** Looks an Interest up; what is found is in a queue. */
    method FindData(interest: Interest, now: int) returns (r: Lookup)
      requires Valid(now) && WellPlaced(interest.name)
      ensures r.Astray? <==> interest.rightmost && Strays(table, interest, now)
      ensures r.Hit? ==> BestMatch(table, interest, now, r.index) && StoredName(table[r.index]) in entryInfo
      ensures r.Miss? ==> forall k :: 0 <= k < |table| ==> !CanSatisfy(table[k], interest, now)
    {
      hide Loose, NamesIn, CanSatisfy, CompareComponent, Strays;
      LooseSorted(State(), now);
      r := Find(table, interest, now);
      AllNamed(State(), now);
    }
  }
}
