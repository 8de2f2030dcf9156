/** What the Content Store is for: a packet put in is renewed whether it was there or not, nothing else
    changes but what is pushed out, and it is found for as long as it stays (table/cs.cpp). */
module CsResults {
  import opened Common
  import opened Names
  import opened CsOrder
  import opened CsLookup
  import opened CsPolicy

  /** The packet of a full name is stored solicited. */
  ghost predicate StoredSolicited(table: seq<Entry>, n: Name) {
    exists i :: 0 <= i < |table| && NameAt(table, i) == n && !table[i].unsolicited
  }

  /** How an entry stands right after its packet arrived: its time starts anew; it is unsolicited only if
      this packet and all before were; it is last in the queue of its kind, with its event due when it
      goes stale there. */
  ghost predicate Renewed(before: Store, after: Store, e: Entry, unsolicited: bool, now: int) {
    var n := FullName(e.data);
    var q := if e.unsolicited then Unsolicited else Fifo;
    e.staleTime == (if e.data.freshness >= 0 then Some(now + e.data.freshness) else None) &&
    (e.unsolicited <==> unsolicited && !StoredSolicited(before.table, n)) &&
    n in after.info && after.info[n] == q && QueueAt(after, q) != [] && QueueAt(after, q)[|QueueAt(after, q)| - 1] == n &&
    (n in after.timers <==> q == Fifo && e.data.freshness >= 0) &&
    (n in after.timers ==> after.timers[n] == now + e.data.freshness)
  }

  /** All entries but that of one name are as before, or gone. */
  ghost predicate OthersKept(before: Store, after: Store, n: Name) {
    (forall e :: e in after.table && FullName(e.data) != n ==> e in before.table && FullName(e.data) in before.info) &&
    (forall e :: e in before.table && FullName(e.data) != n && FullName(e.data) in after.info ==> e in after.table) &&
    (forall m :: m in after.info && m != n ==> m in before.info && after.info[m] == before.info[m]) &&
    forall m :: m in after.info && m != n ==>
      (m in after.timers <==> m in before.timers) && (m in after.timers ==> after.timers[m] == before.timers[m])
  }

  /** The stored entry of a name. */
  lemma EntryOfName(s: Store, now: int, n: Name) returns (e: Entry)
    requires Ok(s, now) && n in s.info
    ensures e in s.table && FullName(e.data) == n && EntryOk(s.info, s.timers, e, now)
    ensures forall o :: o in s.table && FullName(o.data) == n ==> o == e
  {
    hide Sorted, QueuesOk;
    Named(s.table, n);
    var i :| 0 <= i < |s.table| && StoredName(s.table[i]) == n;
    e := s.table[i];
    OnlyOne(s.table, i);
  }

  /** Where queues only lose names, what stays is recorded as before. */
  lemma QueuesShrink(a: Store, b: Store, now: int)
    requires Ok(a, now) && Ok(b, now)
    requires forall q, n :: n in QueueAt(b, q) ==> n in QueueAt(a, q)
    requires forall e :: e in b.table ==> e in a.table
    ensures forall n :: n in b.info ==> n in a.info && b.info[n] == a.info[n]
    ensures forall n :: n in b.info ==> (n in b.timers <==> n in a.timers) && (n in b.timers ==> b.timers[n] == a.timers[n])
  {
    hide Sorted, NamesIn, EntriesOk, EntryOk;
    forall n | n in b.info ensures n in a.info && b.info[n] == a.info[n] {
      assert QueueOk(b, b.info[n]) && QueueOk(a, b.info[n]);
    }
    forall n | n in b.info
      ensures (n in b.timers <==> n in a.timers) && (n in b.timers ==> b.timers[n] == a.timers[n])
    {
      var e := EntryOfName(b, now, n);
      var o := EntryOfName(a, now, n);
      assert o == e;
      SameTimer(a, b, e, now);
    }
  }

  lemma SameTimer(a: Store, b: Store, e: Entry, now: int)
    requires EntryOk(a.info, a.timers, e, now) && EntryOk(b.info, b.timers, e, now)
    requires a.info[FullName(e.data)] == b.info[FullName(e.data)]
    ensures var n := FullName(e.data);
      (n in b.timers <==> n in a.timers) && (n in b.timers ==> b.timers[n] == a.timers[n])
  {
  }

  /** A stored packet arrives again. */
  lemma RefreshRenews(s: Store, i: nat, unsolicited: bool, now: int)
    requires Ok(s, now) && i < |s.table| && StoredName(s.table[i]) in s.info
    ensures var r, n := Refresh(s, i, unsolicited, now), NameAt(s.table, i);
      OthersKept(s, r, n) && |r.table| == |s.table| && r.table[i].data == s.table[i].data &&
      Renewed(s, r, r.table[i], unsolicited, now)
  {
    hide QueuesOk, Sorted, NamesIn, EntryOk, EntriesOk;
    RefreshOk(s, i, unsolicited, now);
    var r, n := Refresh(s, i, unsolicited, now), NameAt(s.table, i);
    assert StoredSolicited(s.table, n) <==> !s.table[i].unsolicited by { OnlyOne(s.table, i); }
    OthersInPlace(s.table, r.table, i);
    RefreshQueues(s, i, unsolicited, now);
    assert EntryOk(r.info, r.timers, r.table[i], now) by { OwnEntry(r, i, now); }
    hide Refresh;
    TimerAsDue(r, r.table[i], now);
    forall e | e in s.table ensures FullName(e.data) in s.info {
      AllNamed(s, now);
    }
  }

  lemma OwnEntry(s: Store, i: nat, now: int)
    requires Ok(s, now) && i < |s.table|
    ensures EntryOk(s.info, s.timers, s.table[i], now)
  {
    hide QueuesOk, Sorted, NamesIn, EntryOk;
    AllNamed(s, now);
  }

  lemma TimerAsDue(s: Store, e: Entry, now: int)
    requires EntryOk(s.info, s.timers, e, now) && e.staleTime == StaleTime(e.data, now)
    ensures var n := FullName(e.data);
      (n in s.timers <==> s.info[n] == Fifo && e.data.freshness >= 0) && (n in s.timers ==> s.timers[n] == now + e.data.freshness)
  {
  }

  lemma RefreshQueues(s: Store, i: nat, unsolicited: bool, now: int)
    requires i < |s.table| && StoredName(s.table[i]) in s.info
    ensures var r, e := Refresh(s, i, unsolicited, now), Refreshed(s.table[i], unsolicited, now);
      var n := StoredName(e);
      var q := if e.unsolicited then Unsolicited else Fifo;
      QueueAt(r, q) != [] && QueueAt(r, q)[|QueueAt(r, q)| - 1] == n && n in r.info && r.info[n] == q &&
      (forall m :: m != n ==> (m in r.info <==> m in s.info) && (m in s.info ==> r.info[m] == s.info[m])) &&
      (forall m :: m != n ==> (m in r.timers <==> m in s.timers) && (m in s.timers ==> r.timers[m] == s.timers[m]))
  {
    hide Remove;
  }

  lemma OthersInPlace(before: seq<Entry>, after: seq<Entry>, i: nat)
    requires i < |before| == |after| && after == before[i := after[i]] && after[i].data == before[i].data
    ensures forall e: Entry :: FullName(e.data) != NameAt(before, i) ==> (e in after <==> e in before)
  {
    forall k | 0 <= k < |before| && k != i ensures before[k] in after {
      assert after[k] == before[k];
    }
  }

  /** A packet that was not stored arrives; it may be what is pushed out. */
  lemma NewRenews(s: Store, data: Data, unsolicited: bool, now: int)
    requires Ok(s, now) && NoDigest(data.name) && FullName(data) !in s.info && s.limit > 0
    ensures var r, n := Insert(s, data, unsolicited, false, now), FullName(data);
      Ok(r, now) && OthersKept(s, r, n) &&
      forall e :: e in r.table && FullName(e.data) == n ==> e.data == data && Renewed(s, r, e, unsolicited, now)
  {
    hide Loose, NamesIn, AttachQueue, Add, Place, EvictEntries, EntryOk;
    LooseSorted(s, now);
    PlaceOk(s.table, data);
    NewOk(s, data, unsolicited, now);
    var i, e := Place(s.table, data).0, NewEntry(data, unsolicited, now);
    var mid := AttachQueue(Add(s, i, e), e, now);
    assert EvictEntries(mid, now) == Insert(s, data, unsolicited, false, now);
    hide Insert;
    NewAttached(s, i, e, now);
    NotStored(s, now, FullName(data));
    AllNamed(s, now);
    EvictedOthers(mid, now);
    EvictedOwn(mid, e, now);
  }

  /** Eviction leaves entries, queues and events as they are, except what goes. */
  lemma EvictedOthers(s: Store, now: int)
    requires Ok(s, now)
    ensures var r := EvictEntries(s, now);
      Ok(r, now) && (forall e :: e in r.table <==> e in s.table && FullName(e.data) in r.info) &&
      (forall n :: n in r.info ==> n in s.info && r.info[n] == s.info[n]) &&
      forall n :: n in r.info ==> (n in r.timers <==> n in s.timers) && (n in r.timers ==> r.timers[n] == s.timers[n])
  {
    hide Loose, NamesIn, EvictEntries, Drop;
    EvictEntriesOk(s, now);
    EvictionDrops(s, now);
    TailMembers(s, EvictEntries(s, now));
    QueuesShrink(s, EvictEntries(s, now), now);
  }

  lemma EvictionDrops(s: Store, now: int)
    requires Ok(s, now)
    ensures forall q :: IsTail(QueueAt(EvictEntries(s, now), q), QueueAt(s, q))
  {
    hide Loose, NamesIn, EvictEntries;
    EvictEntriesOk(s, now);
  }

  /** What is left of a queue when names go from its front. */
  predicate IsTail(left: seq<Name>, all: seq<Name>) {
    |left| <= |all| && left == all[|all| - |left|..]
  }

  /** The entry just attached, if it is not what goes. */
  lemma EvictedOwn(s: Store, e: Entry, now: int)
    requires Ok(s, now) && e in s.table && e.staleTime == StaleTime(e.data, now)
    requires var n := FullName(e.data);
      n in s.info && QueueAt(s, s.info[n]) != [] && QueueAt(s, s.info[n])[|QueueAt(s, s.info[n])| - 1] == n
    ensures var r, n := EvictEntries(s, now), FullName(e.data);
      forall o :: o in r.table && FullName(o.data) == n ==>
        o == e && n in r.info && r.info[n] == s.info[n] &&
        QueueAt(r, r.info[n]) != [] && QueueAt(r, r.info[n])[|QueueAt(r, r.info[n])| - 1] == n &&
        (n in r.timers <==> r.info[n] == Fifo && e.data.freshness >= 0) && (n in r.timers ==> r.timers[n] == now + e.data.freshness)
  {
    hide Loose, NamesIn, EvictEntries, EntryOk;
    EvictedOthers(s, now);
    EvictionDrops(s, now);
    var r, n := EvictEntries(s, now), FullName(e.data);
    if n in r.info {
      var m := EntryOfName(s, now, n);
      var own := EntryOfName(r, now, n);
      LastOfTail(s, r, n, now);
      TimerAsDue(r, own, now);
    }
  }

  /** A name that stays in its queue and was last in it still is. */
  lemma LastOfTail(a: Store, b: Store, n: Name, now: int)
    requires Ok(b, now) && n in b.info
    requires forall q :: IsTail(QueueAt(b, q), QueueAt(a, q))
    requires var all := QueueAt(a, b.info[n]); all != [] && all[|all| - 1] == n
    ensures var left := QueueAt(b, b.info[n]); left != [] && left[|left| - 1] == n
  {
    hide Sorted, NamesIn, EntriesOk;
    assert QueueOk(b, b.info[n]);
  }

  /** What attaching a new entry does to the index and the records of others. */
  lemma NewAttached(s: Store, i: nat, e: Entry, now: int)
    requires i <= |s.table| && e == NewEntry(e.data, e.unsolicited, now)
    ensures var r, n := AttachQueue(Add(s, i, e), e, now), FullName(e.data);
      (forall o :: o in r.table <==> o in s.table || o == e) &&
      n in r.info && r.info[n] == (if e.unsolicited then Unsolicited else Fifo) &&
      (forall m :: m != n ==> (m in r.info <==> m in s.info) && (m in s.info ==> r.info[m] == s.info[m])) &&
      (forall m :: m != n ==> (m in r.timers <==> m in s.timers) && (m in s.timers ==> r.timers[m] == s.timers[m]))
  {
    var r := s.table[..i] + [e] + s.table[i..];
    assert forall k {:trigger s.table[k]} :: 0 <= k < |s.table| ==> s.table[k] == r[if k < i then k else k + 1];
    assert r[i] == e;
  }

  lemma TailMembers(a: Store, b: Store)
    requires forall q :: IsTail(QueueAt(b, q), QueueAt(a, q))
    ensures forall q, n :: n in QueueAt(b, q) ==> n in QueueAt(a, q)
  {
  }

  lemma NotStored(s: Store, now: int, n: Name)
    requires Ok(s, now) && n !in s.info
    ensures !StoredSolicited(s.table, n) && forall e :: e in s.table ==> FullName(e.data) != n
  {
    hide Loose;
    Named(s.table, n);
  }

  /** Insertion, of a packet stored or new: if it is there afterwards it is renewed, it stays if it was there,
      and all else is as before or pushed out. */
  lemma InsertRenews(s: Store, data: Data, unsolicited: bool, now: int)
    requires Ok(s, now) && NoDigest(data.name) && s.limit > 0
    ensures var r, n := Insert(s, data, unsolicited, false, now), FullName(data);
      Ok(r, now) && OthersKept(s, r, n) && (n in s.info ==> n in r.info) &&
      forall e :: e in r.table && FullName(e.data) == n ==>
        Renewed(s, r, e, unsolicited, now) && (n !in s.info ==> e.data == data) &&
        forall o :: o in s.table && FullName(o.data) == n ==> e.data == o.data
  {
    hide Loose, NamesIn, Place, OthersKept, Renewed, Refresh;
    var n := FullName(data);
    if n in s.info {
      LooseSorted(s, now);
      PlaceOk(s.table, data);
      var i := Place(s.table, data).0;
      RefreshOk(s, i, unsolicited, now);
      RefreshRenews(s, i, unsolicited, now);
      var r := Refresh(s, i, unsolicited, now);
      assert r == Insert(s, data, unsolicited, false, now);
      hide Insert;
      var e := EntryOfName(r, now, n);
      var o := EntryOfName(s, now, n);
      assert e == r.table[i] && o == s.table[i];
    } else {
      NewRenews(s, data, unsolicited, now);
      NotStored(s, now, n);
    }
  }

  /** Which Interests the packet that has just arrived answers, and until when. */
  lemma AnswersWhile(s: Store, data: Data, unsolicited: bool, now: int, e: Entry, interest: Interest, time: int)
    requires Ok(s, now) && NoDigest(data.name) && s.limit > 0
    requires e in Insert(s, data, unsolicited, false, now).table && FullName(e.data) == FullName(data)
    ensures CanSatisfy(e, interest, time) <==>
      interest.name <= FullName(data) && interest.selects(e.data) &&
      (interest.mustBeFresh && e.data.freshness >= 0 ==> time <= now + e.data.freshness)
  {
    hide Insert, Loose, NamesIn, OthersKept;
    InsertRenews(s, data, unsolicited, now);
  }

  /** A packet is stored that was renewed at some time or later. */
  ghost predicate StoredSince(s: Store, data: Data, since: int) {
    exists e :: e in s.table && e.data == data &&
      if data.freshness < 0 then e.staleTime.None? else e.staleTime.Some? && e.staleTime.value >= since + data.freshness
  }

  /** No event but its own leaving takes that away. */
  lemma StaysStored(s: Store, t: Timed, data: Data, since: int)
    requires Ok(s, t.now) && |s.table| <= s.limit && Possible(s, t)
    requires StoredSince(s, data, since) && since <= t.now && FullName(data) in Apply(s, t).info
    ensures StoredSince(Apply(s, t), data, since)
  {
    hide Loose, NamesIn, Insert, EvictEntries, EntryOk;
    var n := FullName(data);
    var e :| e in s.table && e.data == data &&
      if data.freshness < 0 then e.staleTime.None? else e.staleTime.Some? && e.staleTime.value >= since + data.freshness;
    var r := Apply(s, t);
    match t.event {
      case Arrive(other, unsolicited, noCache) =>
        InsertOk(s, other, unsolicited, noCache, t.now);
        if s.limit > 0 && !noCache {
          InsertRenews(s, other, unsolicited, t.now);
          if FullName(other) == n {
            var o := EntryOfName(r, t.now, n);
            assert o.data == e.data;
          }
        }
      case Limit(nMaxEntries) =>
        LimitOnly(s, nMaxEntries, t.now);
        EvictedOthers(s.(limit := nMaxEntries), t.now);
      case Move(_) =>
    }
  }

  lemma RunStep(limit: nat, events: seq<Timed>)
    requires Chronological(events) && events != []
    ensures var init, t := events[..|events| - 1], events[|events| - 1];
      var before := Run(limit, init);
      Chronological(init) && Ok(before, t.now) && |before.table| <= before.limit && Run(limit, events) == Advance(before, t)
  {
    hide Ok, Advance;
    var init, t := events[..|events| - 1], events[|events| - 1];
    if init != [] {
      LaterOk(Run(limit, init), init[|init| - 1].now, t.now);
    }
  }

  /** The law of a cache: what was put in is stored, renewed then or later, in every state until it leaves. */
  lemma {:induction false} StoredUntilGone(limit: nat, events: seq<Timed>, k: nat)
    requires Chronological(events) && k < |events| && events[k].event.Arrive? && !events[k].event.noCache
    requires var data := events[k].event.data;
      NoDigest(data.name) && Run(limit, events[..k]).limit > 0 &&
      (forall e :: e in Run(limit, events[..k]).table && FullName(e.data) == FullName(data) ==> e.data == data) &&
      forall j :: k < j <= |events| ==> FullName(data) in Run(limit, events[..j]).info
    ensures StoredSince(Run(limit, events), events[k].event.data, events[k].now)
  {
    hide Run, Ok, Advance, Apply, Chronological;
    var init, t := events[..|events| - 1], events[|events| - 1];
    var data := events[k].event.data;
    assert events[..|events|] == events;
    RunStep(limit, events);
    var before := Run(limit, init);
    if k == |events| - 1 {
      ArrivesStored(before, t);
    } else {
      assert forall j :: 0 <= j <= |init| ==> init[..j] == events[..j];
      StoredUntilGone(limit, init, k);
      assert events[k].now <= t.now by { Order(events, k, |events| - 1); }
      AdvanceStored(before, t, data, events[k].now);
    }
  }

  lemma Order(events: seq<Timed>, i: nat, j: nat)
    requires Chronological(events) && i < j < |events|
    ensures events[i].now <= events[j].now
  {
  }

  lemma ArrivesStored(s: Store, t: Timed)
    requires Ok(s, t.now) && |s.table| <= s.limit && s.limit > 0 && t.event.Arrive? && !t.event.noCache && NoDigest(t.event.data.name)
    requires forall e :: e in s.table && FullName(e.data) == FullName(t.event.data) ==> e.data == t.event.data
    requires FullName(t.event.data) in Advance(s, t).info
    ensures StoredSince(Advance(s, t), t.event.data, t.now)
  {
    hide Loose, NamesIn, Insert, EntryOk;
    var data := t.event.data;
    InsertRenews(s, data, t.event.unsolicited, t.now);
    var e := EntryOfName(Advance(s, t), t.now, FullName(data));
    if FullName(data) in s.info {
      var o := EntryOfName(s, t.now, FullName(data));
      assert e.data == o.data;
    }
  }

  lemma AdvanceStored(s: Store, t: Timed, data: Data, since: int)
    requires Ok(s, t.now) && |s.table| <= s.limit && StoredSince(s, data, since) && since <= t.now
    requires FullName(data) in Advance(s, t).info
    ensures StoredSince(Advance(s, t), data, since)
  {
    hide Ok, Apply, StoredSince;
    if Possible(s, t) {
      StaysStored(s, t, data, since);
    }
  }

  /** What is stored answers every Interest for its name or a prefix of it whose selectors take it, and with
      MustBeFresh until it is older than its freshness period: no lookup for it ends in a miss. */
  lemma StoredIsFound(s: Store, data: Data, since: int, interest: Interest, time: int)
    requires StoredSince(s, data, since) && interest.name <= FullName(data) && interest.selects(data)
    requires interest.mustBeFresh ==> data.freshness < 0 || time <= since + data.freshness
    ensures exists k :: 0 <= k < |s.table| && s.table[k].data == data && CanSatisfy(s.table[k], interest, time)
  {
    var e :| e in s.table && e.data == data &&
      if data.freshness < 0 then e.staleTime.None? else e.staleTime.Some? && e.staleTime.value >= since + data.freshness;
    var k :| 0 <= k < |s.table| && s.table[k] == e;
    assert CanSatisfy(s.table[k], interest, time);
  }
}
