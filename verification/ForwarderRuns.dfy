/** What the forwarding pipelines keep over every run, whatever the strategy does: flow balance on
    each face, timer discipline, and one finalisation for each PIT entry. */
module ForwarderRuns {
  import opened Common
  import opened Forwarder
  import Q = QueryRewriting

  // Flow balance

  predicate Answers(x: Sent, f: FaceId) {
    !x.SentInterest? && x.face == f
  }

  /** Data and Nacks sent to a face. */
  function AnswersTo(sent: seq<Sent>, f: FaceId): nat {
    if sent == [] then 0
    else AnswersTo(sent[..|sent| - 1], f) + if Answers(sent[|sent| - 1], f) then 1 else 0
  }

  lemma AnswersAppend(sent: seq<Sent>, x: Sent, f: FaceId)
    ensures AnswersTo(sent + [x], f) == AnswersTo(sent, f) + if Answers(x, f) then 1 else 0
  {
    assert (sent + [x])[..|sent|] == sent;
  }

  /** PIT entries with an in-record of a face. */
  function Holders(pit: map<Key, Entry>, f: FaceId): set<Key> {
    set k | k in pit && Has(pit[k].inRecords, f)
  }

  function InRecordCount(pit: map<Key, Entry>, k: Key, f: FaceId): nat {
    if k in pit && Has(pit[k].inRecords, f) then 1 else 0
  }

  lemma HoldersUpdate(pit: map<Key, Entry>, k: Key, e: Entry, f: FaceId)
    ensures |Holders(pit[k := e], f)| ==
      |Holders(pit, f)| - InRecordCount(pit, k, f) + if Has(e.inRecords, f) then 1 else 0
  {
    var before, after := Holders(pit, f), Holders(pit[k := e], f);
    HoldersMembers(pit, k, e, f);
    hide Has, Holders;
    assert after - {k} == before - {k};
    CountWithout(before, k);
    CountWithout(after, k);
  }

  lemma HoldersMembers(pit: map<Key, Entry>, k: Key, e: Entry, f: FaceId)
    ensures forall m :: m in Holders(pit[k := e], f) <==> if m == k then Has(e.inRecords, f) else m in Holders(pit, f)
    ensures k in Holders(pit, f) <==> InRecordCount(pit, k, f) == 1
  {
    hide Has;
  }

  lemma CountWithout(s: set<Key>, k: Key)
    ensures |s - {k}| == |s| - if k in s then 1 else 0
  {
    if k !in s {
      assert s - {k} == s;
    }
  }

  lemma HoldersRemove(pit: map<Key, Entry>, k: Key, f: FaceId)
    requires k in pit
    ensures |Holders(pit - {k}, f)| == |Holders(pit, f)| - InRecordCount(pit, k, f)
  {
    hide Has;
    assert Holders(pit - {k}, f) == Holders(pit, f) - {k};
  }

  /** Interests received from a face, less those answered and those that still may be. */
  function Credit(s: State, f: FaceId): int {
    multiset(s.received)[f] - AnswersTo(s.sent, f) - |Holders(s.pit, f)|
  }

  // Entries

  ghost predicate OnePerFace<T(!new)>(records: seq<Record<T>>) {
    forall i, j :: 0 <= i < j < |records| ==> records[i].face != records[j].face
  }

  ghost predicate FacesLive<T(!new)>(faces: map<FaceId, Face>, records: seq<Record<T>>) {
    forall i :: 0 <= i < |records| ==> records[i].face in faces
  }

  /** Every in-record's Interest has the name and selectors of the entry. */
  ghost predicate SameKey(k: Key, records: seq<InRecord>) {
    forall i :: 0 <= i < |records| ==> KeyOf(records[i].attached) == k
  }

  ghost predicate Shape(faces: map<FaceId, Face>, k: Key, e: Entry) {
    KeyOf(e.interest) == k && !Q.Contains(k.name, Q.QUERIED) && SameKey(k, e.inRecords) &&
    OnePerFace(e.inRecords) && OnePerFace(e.outRecords) && FacesLive(faces, e.inRecords) && FacesLive(faces, e.outRecords)
  }

  /** No in-record expires after the time. */
  ghost predicate ExpireBy(records: seq<InRecord>, time: int) {
    forall i :: 0 <= i < |records| ==> records[i].expiry <= time
  }

  /** Exactly one timer is pending, and the unsatisfy timer outlasts every in-record. */
  ghost predicate TimersOk(e: Entry) {
    e.unsatisfyTimer.Some? != e.stragglerTimer.Some? &&
    (e.unsatisfyTimer.Some? ==> ExpireBy(e.inRecords, e.unsatisfyTimer.value))
  }

  /** Entries have their own ids, and those finalised are not used again. */
  ghost predicate IdsOk(s: State) {
    NoDuplicates(s.finalized) &&
    (forall i :: 0 <= i < |s.finalized| ==> s.finalized[i] < s.nextId) &&
    (forall k :: k in s.pit ==> s.pit[k].id < s.nextId && s.pit[k].id !in s.finalized) &&
    forall k, m :: k in s.pit && m in s.pit && k != m ==> s.pit[k].id != s.pit[m].id
  }

  ghost predicate Balanced(s: State) {
    forall f :: Credit(s, f) >= 0
  }

  ghost predicate EntriesOk(s: State) {
    forall k :: k in s.pit ==> Shape(s.faces, k, s.pit[k]) && TimersOk(s.pit[k])
  }

  ghost predicate Inv(s: State) {
    Balanced(s) && EntriesOk(s) && IdsOk(s)
  }

  // Records

  lemma DeleteOk<T(!new)>(records: seq<Record<T>>, face: FaceId)
    requires OnePerFace(records)
    ensures OnePerFace(Delete(records, face)) && !Has(Delete(records, face), face)
    ensures forall f :: f != face ==> (Has(Delete(records, face), f) <==> Has(records, f))
    ensures forall i :: 0 <= i < |Delete(records, face)| ==> Delete(records, face)[i] in records
  {
    var r := Delete(records, face);
    var p := IndexOf(records, face);
    if p.Some? {
      assert forall i {:trigger r[i]} :: 0 <= i < |r| ==> r[i] == records[if i < p.value then i else i + 1];
      forall f | f != face ensures Has(r, f) <==> Has(records, f) {
        var q := IndexOf(records, f);
        if q.Some? {
          assert r[if q.value < p.value then q.value else q.value - 1].face == f;
        }
      }
    }
  }

  lemma HasIff<T(!new)>(records: seq<Record<T>>, face: FaceId)
    ensures Has(records, face) <==> exists i :: 0 <= i < |records| && records[i].face == face
  {
  }

  lemma UpsertInOk(records: seq<InRecord>, face: FaceId, interest: Interest, now: int)
    requires OnePerFace(records)
    ensures var r := UpsertIn(records, face, interest, now);
      r != [] && OnePerFace(r) && (forall f :: Has(r, f) <==> f == face || Has(records, f)) &&
      forall i :: 0 <= i < |r| ==> r[i] in records || (r[i].face == face && r[i].attached == interest)
  {
    var r := UpsertIn(records, face, interest, now);
    forall f ensures Has(r, f) <==> f == face || Has(records, f) {
      HasIff(r, f);
      HasIff(records, f);
      var p := IndexOf(records, face);
      var shift := if p.None? then 1 else 0;
      if i :| 0 <= i < |records| && records[i].face == f {
        assert r[i + shift].face == f;
      }
      if f == face {
        assert r[if p.None? then 0 else p.value].face == f;
      }
    }
  }

  lemma UpsertOutOk(records: seq<OutRecord>, face: FaceId, nonce: nat, expiry: int, now: int)
    requires OnePerFace(records)
    ensures var r := UpsertOut(records, face, nonce, expiry, now);
      OnePerFace(r) && forall i :: 0 <= i < |r| ==> r[i].face == face || r[i] in records
  {
  }

  // Actions of the strategy

  /** b differs from a in one entry and in what was sent. */
  ghost predicate Local(a: State, b: State, k: Key) {
    k in a.pit && k in b.pit && b == a.(pit := a.pit[k := b.pit[k]], sent := b.sent) &&
    b.pit[k].id == a.pit[k].id && b.pit[k].interest == a.pit[k].interest
  }

  lemma CreditLocal(a: State, b: State, k: Key, f: FaceId)
    requires Local(a, b, k)
    ensures Credit(b, f) == Credit(a, f) + AnswersTo(a.sent, f) - AnswersTo(b.sent, f) +
      InRecordCount(a.pit, k, f) - InRecordCount(b.pit, k, f)
  {
    HoldersUpdate(a.pit, k, b.pit[k], f);
  }

  /** What an action leaves of an entry: its shape, its timer discipline, and, unless it is a Nack,
      its in-records. */
  ghost predicate Kept(faces: map<FaceId, Face>, k: Key, before: Entry, after: Entry) {
    Shape(faces, k, after) &&
    (TimersOk(before) ==> TimersOk(after)) &&
    (before.unsatisfyTimer.None? ==> after.unsatisfyTimer.None?)
  }

  lemma InterestOut(s: State, k: Key, outFace: FaceId, newNonce: Option<nat>, word: string, now: int)
    requires k in s.pit && Shape(s.faces, k, s.pit[k])
    ensures var r := OnOutgoingInterest(s, k, outFace, newNonce, word, now);
      Local(s, r, k) && Kept(s.faces, k, s.pit[k], r.pit[k]) && r.pit[k].inRecords == s.pit[k].inRecords &&
      forall f :: Credit(r, f) == Credit(s, f)
  {
    hide Q.Contains, Has, AnswersTo, ViolatesScope;
    var e, r := s.pit[k], OnOutgoingInterest(s, k, outFace, newNonce, word, now);
    if r != s {
      var picked := e.inRecords[Pick(e.inRecords, outFace)].attached;
      UpsertOutOk(e.outRecords, outFace, if newNonce.Some? then newNonce.value else picked.nonce, Expiry(picked, now), now);
      LiveSubset(s.faces, e.outRecords, r.pit[k].outRecords);
      forall f ensures Credit(r, f) == Credit(s, f) {
        CreditLocal(s, r, k, f);
        AnswersAppend(s.sent, r.sent[|s.sent|], f);
      }
    }
  }

  /** Records that were there, or are for a live face. */
  lemma LiveSubset<T(!new)>(faces: map<FaceId, Face>, before: seq<Record<T>>, after: seq<Record<T>>)
    requires FacesLive(faces, before)
    requires forall i :: 0 <= i < |after| ==> after[i].face in faces || after[i] in before
    ensures FacesLive(faces, after)
  {
  }

  lemma KeySubset(k: Key, before: seq<InRecord>, after: seq<InRecord>)
    requires SameKey(k, before)
    requires forall i :: 0 <= i < |after| ==> KeyOf(after[i].attached) == k || after[i] in before
    ensures SameKey(k, after)
  {
  }

  lemma ExpirySubset(before: seq<InRecord>, after: seq<InRecord>, time: int)
    requires ExpireBy(before, time) && forall i :: 0 <= i < |after| ==> after[i] in before
    ensures ExpireBy(after, time)
  {
  }

  lemma Reject(s: State, k: Key, now: int)
    requires k in s.pit && Shape(s.faces, k, s.pit[k])
    ensures var r := OnInterestReject(s, k, now);
      Local(s, r, k) && Kept(s.faces, k, s.pit[k], r.pit[k]) && r.pit[k].inRecords == s.pit[k].inRecords &&
      forall f :: Credit(r, f) == Credit(s, f)
  {
    hide Q.Contains, Has, AnswersTo, HasPendingOutRecords;
    var r := OnInterestReject(s, k, now);
    assert s.pit[k := s.pit[k]] == s.pit;
    forall f ensures Credit(r, f) == Credit(s, f) {
      CreditLocal(s, r, k, f);
    }
  }

  /** Whether a Nack can go out on a face at all. */
  predicate TakesNacks(faces: map<FaceId, Face>, f: FaceId) {
    f in faces && !faces[f].multiAccess
  }

  lemma NackOut(s: State, k: Key, outFace: FaceId, reason: Reason)
    requires k in s.pit && Shape(s.faces, k, s.pit[k])
    ensures var r := OnOutgoingNack(s, k, outFace, reason);
      Local(s, r, k) && Kept(s.faces, k, s.pit[k], r.pit[k]) &&
      (forall f :: Has(r.pit[k].inRecords, f) <==> Has(s.pit[k].inRecords, f) && !(f == outFace && TakesNacks(s.faces, f))) &&
      forall f :: Credit(r, f) == Credit(s, f)
  {
    hide Q.Contains, AnswersTo, Delete;
    var e, r := s.pit[k], OnOutgoingNack(s, k, outFace, reason);
    assert s.pit[k := s.pit[k]] == s.pit;
    if r != s {
      DeleteOk(e.inRecords, outFace);
      LiveSubset(s.faces, e.inRecords, r.pit[k].inRecords);
      KeySubset(k, e.inRecords, r.pit[k].inRecords);
      if e.unsatisfyTimer.Some? && TimersOk(e) {
        ExpirySubset(e.inRecords, r.pit[k].inRecords, e.unsatisfyTimer.value);
      }
      forall f ensures Credit(r, f) == Credit(s, f) {
        CreditLocal(s, r, k, f);
        AnswersAppend(s.sent, r.sent[|s.sent|], f);
      }
    }
  }

  predicate IsNackTo(a: Action, f: FaceId) {
    a.SendNack? && a.face == f
  }

  ghost predicate NacksTo(actions: seq<Action>, f: FaceId) {
    exists i :: 0 <= i < |actions| && IsNackTo(actions[i], f)
  }

  /** The in-record of a face survives unless a Nack went out on it. */
  ghost predicate Survives(s: State, k: Key, actions: seq<Action>, f: FaceId)
    requires k in s.pit
  {
    Has(s.pit[k].inRecords, f) && !(TakesNacks(s.faces, f) && NacksTo(actions, f))
  }

  lemma PerformOk(s: State, k: Key, a: Action, now: int)
    requires k in s.pit && Shape(s.faces, k, s.pit[k])
    ensures var r := Perform(s, k, a, now);
      Local(s, r, k) && Kept(s.faces, k, s.pit[k], r.pit[k]) &&
      (forall f :: Has(r.pit[k].inRecords, f) <==> Has(s.pit[k].inRecords, f) && !(IsNackTo(a, f) && TakesNacks(s.faces, f))) &&
      forall f :: Credit(r, f) == Credit(s, f)
  {
    hide Local, Kept, Credit, OnOutgoingInterest, OnInterestReject, OnOutgoingNack, Has;
    match a {
      case SendInterest(outFace, newNonce, word) => InterestOut(s, k, outFace, newNonce, word, now);
      case RejectInterest => Reject(s, k, now);
      case SendNack(face, reason) => NackOut(s, k, face, reason);
    }
  }

  /** Whatever a strategy does, no face gains or loses credit. */
  lemma {:induction false} PerformAllOk(s: State, k: Key, actions: seq<Action>, now: int)
    requires k in s.pit && Shape(s.faces, k, s.pit[k])
    ensures var r := PerformAll(s, k, actions, now);
      Local(s, r, k) && Kept(s.faces, k, s.pit[k], r.pit[k]) &&
      (forall f :: Has(r.pit[k].inRecords, f) <==> Survives(s, k, actions, f)) &&
      forall f :: Credit(r, f) == Credit(s, f)
  {
    hide Shape, TimersOk, Credit, Perform, Has, NacksTo;
    if actions == [] {
      assert s.pit[k := s.pit[k]] == s.pit;
      NoNacks();
    } else {
      var n := |actions| - 1;
      var mid := PerformAll(s, k, actions[..n], now);
      PerformAllOk(s, k, actions[..n], now);
      PerformOk(mid, k, actions[n], now);
      var r := PerformAll(s, k, actions, now);
      assert r.pit == s.pit[k := r.pit[k]];
      NacksLast(actions);
    }
  }

  lemma NoNacks()
    ensures forall f :: !NacksTo([], f)
  {
  }

  lemma NacksLast(actions: seq<Action>)
    requires actions != []
    ensures forall f :: NacksTo(actions, f) <==> NacksTo(actions[..|actions| - 1], f) || IsNackTo(actions[|actions| - 1], f)
  {
    forall f ensures NacksTo(actions, f) <==> NacksTo(actions[..|actions| - 1], f) || IsNackTo(actions[|actions| - 1], f) {
      var init := actions[..|actions| - 1];
      if i :| 0 <= i < |init| && IsNackTo(init[i], f) {
        assert IsNackTo(actions[i], f);
      }
      if i :| 0 <= i < |actions| - 1 && IsNackTo(actions[i], f) {
        assert IsNackTo(init[i], f);
      }
    }
  }

  // Interests

  /** All entries but one are in order. */
  ghost predicate OthersOk(s: State, k: Key) {
    forall m :: m in s.pit && m != k ==> Shape(s.faces, m, s.pit[m]) && TimersOk(s.pit[m])
  }

  lemma LocalOthers(a: State, b: State, k: Key)
    requires Local(a, b, k) && OthersOk(a, k) && IdsOk(a)
    ensures OthersOk(b, k) && IdsOk(b)
  {
    hide Shape, TimersOk;
  }

  lemma OthersAndOne(s: State, k: Key)
    requires OthersOk(s, k) && k in s.pit && Shape(s.faces, k, s.pit[k]) && TimersOk(s.pit[k])
    ensures EntriesOk(s)
  {
  }

  /** Setting an entry's records and timers; credit changes with its in-records. */
  lemma SetEntry(s: State, k: Key, e: Entry)
    requires k in s.pit && e.id == s.pit[k].id && e.interest == s.pit[k].interest
    ensures Local(s, WithEntry(s, k, e), k)
    ensures forall f :: Credit(WithEntry(s, k, e), f) == Credit(s, f) + InRecordCount(s.pit, k, f) - if Has(e.inRecords, f) then 1 else 0
  {
    hide Has, AnswersTo;
    forall f ensures Credit(WithEntry(s, k, e), f) == Credit(s, f) + InRecordCount(s.pit, k, f) - if Has(e.inRecords, f) then 1 else 0 {
      HoldersUpdate(s.pit, k, e, f);
    }
  }

  /** Every face has its credit, and one face one more. */
  ghost predicate CreditFor(s: State, face: FaceId) {
    forall f :: Credit(s, f) >= if f == face then 1 else 0
  }

  /** Whether Data under a name may go out on a face. */
  predicate Reachable(s: State, f: FaceId, d: Data) {
    f in s.faces && (s.faces[f].local || !UnderPrefix(LOCALHOST, d.name))
  }

  lemma DataOut(s: State, data: Data, outFace: FaceId, f: FaceId)
    ensures var r := OnOutgoingData(s, data, outFace);
      r == s.(sent := r.sent) && Credit(r, f) == Credit(s, f) - if f == outFace && Reachable(s, f, data) then 1 else 0
  {
    hide Has, UnderPrefix, Holders;
    var r := OnOutgoingData(s, data, outFace);
    if r != s {
      AnswersAppend(s.sent, SentData(outFace, data), f);
    }
  }

  lemma LoopOk(s: State, inFace: FaceId, interest: Interest)
    requires inFace in s.faces && CreditFor(s, inFace) && EntriesOk(s) && IdsOk(s)
    ensures Inv(OnInterestLoop(s, inFace, interest))
  {
    hide Has, Shape, TimersOk;
    var r := OnInterestLoop(s, inFace, interest);
    forall f ensures Credit(r, f) >= 0 {
      assert Credit(s, f) >= if f == inFace then 1 else 0;
      if r != s {
        AnswersAppend(s.sent, r.sent[|s.sent|], f);
      }
    }
  }

  lemma HitOk(s: State, k: Key, inFace: FaceId, data: Data, now: int)
    requires k in s.pit && Shape(s.faces, k, s.pit[k]) && s.pit[k].unsatisfyTimer.None?
    requires OthersOk(s, k) && IdsOk(s) && CreditFor(s, inFace)
    ensures Inv(OnContentStoreHit(s, k, inFace, data, now))
  {
    hide Has, Q.Contains, Credit, OnOutgoingData, Holders, AnswersTo;
    var e := WithStragglerTimer(s.pit[k], true, data.freshness, now);
    var mid := WithEntry(s, k, e);
    SetEntry(s, k, e);
    LocalOthers(s, mid, k);
    OthersAndOne(mid, k);
    forall f ensures Credit(OnOutgoingData(mid, data, inFace), f) >= 0 {
      DataOut(mid, data, inFace, f);
    }
    DataOut(mid, data, inFace, 0);
    EntriesOnly(mid, OnOutgoingData(mid, data, inFace));
  }

  lemma EntriesOnly(a: State, b: State)
    requires EntriesOk(a) && IdsOk(a) && b.faces == a.faces && b.pit == a.pit && b.nextId == a.nextId && b.finalized == a.finalized
    ensures EntriesOk(b) && IdsOk(b)
  {
    hide Shape, TimersOk;
  }

  lemma Inserted(s: State, k: Key, inFace: FaceId, interest: Interest, now: int)
    requires k in s.pit && Shape(s.faces, k, s.pit[k]) && s.pit[k].stragglerTimer.None?
    requires inFace in s.faces && KeyOf(interest) == k
    requires CreditFor(s, inFace)
    ensures var inRecords := UpsertIn(s.pit[k].inRecords, inFace, interest, now);
      inRecords != [] &&
      var e := WithUnsatisfyTimer(s.pit[k].(inRecords := inRecords));
      Shape(s.faces, k, e) && TimersOk(e) && Local(s, WithEntry(s, k, e), k) && Balanced(WithEntry(s, k, e))
  {
    hide Q.Contains, UpsertIn, Credit, Has;
    var before := s.pit[k].inRecords;
    var inRecords := UpsertIn(before, inFace, interest, now);
    UpsertInOk(before, inFace, interest, now);
    LiveSubset(s.faces, before, inRecords);
    KeySubset(k, before, inRecords);
    SetEntry(s, k, WithUnsatisfyTimer(s.pit[k].(inRecords := inRecords)));
  }

  lemma MissOk(s: State, k: Key, inFace: FaceId, interest: Interest, word: string, actions: seq<Action>, now: int)
    requires k in s.pit && Shape(s.faces, k, s.pit[k]) && s.pit[k].stragglerTimer.None?
    requires OthersOk(s, k) && IdsOk(s) && CreditFor(s, inFace) && inFace in s.faces && KeyOf(interest) == k
    ensures Inv(OnContentStoreMiss(s, k, inFace, interest, word, actions, now))
  {
    hide Shape, TimersOk, Credit, UpsertIn, PerformAll, OnOutgoingInterest, IdsOk, OthersOk, EntriesOk, Local;
    Inserted(s, k, inFace, interest, now);
    var e := WithUnsatisfyTimer(s.pit[k].(inRecords := UpsertIn(s.pit[k].inRecords, inFace, interest, now)));
    var after := WithEntry(s, k, e);
    LocalOthers(s, after, k);
    var r := OnContentStoreMiss(s, k, inFace, interest, word, actions, now);
    match interest.nextHopFaceId {
      case None => PerformAllOk(after, k, actions, now);
      case Some(nextHop) =>
        if nextHop in s.faces {
          InterestOut(after, k, nextHop, None, word, now);
        } else {
          LocalSelf(after, k);
        }
    }
    LocalOthers(after, r, k);
    LocalHas(after, r, k);
    OthersAndOne(r, k);
  }

  lemma LocalSelf(s: State, k: Key)
    requires k in s.pit
    ensures Local(s, s, k)
  {
    assert s.pit[k := s.pit[k]] == s.pit;
  }

  lemma LocalHas(a: State, b: State, k: Key)
    requires Local(a, b, k)
    ensures k in a.pit && k in b.pit && b.faces == a.faces
  {
  }

  lemma ArrivedOk(interest: Interest)
    ensures !Q.Contains(Arrived(interest).name, Q.QUERIED)
  {
    Q.CutHasNoQueried(interest.name);
  }

  /** A PIT entry for the Interest; a new one is empty. */
  lemma InsertPitOk(s: State, interest: Interest)
    requires EntriesOk(s) && IdsOk(s) && !Q.Contains(interest.name, Q.QUERIED)
    ensures var k, r := KeyOf(interest), InsertPit(s, interest);
      k in r.pit && r.faces == s.faces && OthersOk(r, k) && IdsOk(r) && Shape(r.faces, k, r.pit[k]) &&
      (HasDuplicateNonce(r.pit[k], interest.nonce) ==> r == s) &&
      forall f :: Credit(r, f) == Credit(s, f)
  {
    hide Q.Contains, TimersOk, AnswersTo, Holders, Credit, NoDuplicates;
    var k, r := KeyOf(interest), InsertPit(s, interest);
    if k !in s.pit {
      forall f ensures Credit(r, f) == Credit(s, f) {
        NewEntryCredit(s, k, r.pit[k], f);
      }
    }
  }

  lemma NewEntryCredit(s: State, k: Key, e: Entry, f: FaceId)
    requires k !in s.pit && e.inRecords == []
    ensures Credit(WithEntry(s, k, e).(nextId := s.nextId + 1), f) == Credit(s, f)
  {
    HoldersUpdate(s.pit, k, e, f);
    HasNone(f);
  }

  lemma ReceivedOne(s: State, inFace: FaceId)
    requires Inv(s)
    ensures var r := s.(received := s.received + [inFace]);
      CreditFor(r, inFace) && EntriesOk(r) && IdsOk(r)
  {
    hide Holders, AnswersTo, Shape, TimersOk;
    forall f ensures Credit(s.(received := s.received + [inFace]), f) == Credit(s, f) + if f == inFace then 1 else 0 {
    }
  }

  lemma CreditForGives(s: State, inFace: FaceId)
    requires CreditFor(s, inFace)
    ensures Balanced(s)
  {
  }

  lemma IncomingInterestOk(s: State, inFace: FaceId, interest: Interest, isDead: bool, hit: Option<Data>, word: string,
                           actions: seq<Action>, now: int)
    requires Inv(s) && inFace in s.faces
    ensures Inv(OnIncomingInterest(s, inFace, interest, isDead, hit, word, actions, now))
  {
    hide Credit, Shape, TimersOk, OthersOk, EntriesOk, IdsOk, OnInterestLoop, OnContentStoreHit, OnContentStoreMiss,
      Arrived, InsertPit, UnderPrefix, HasDuplicateNonce, Local;
    var s1 := s.(received := s.received + [inFace]);
    ReceivedOne(s, inFace);
    CreditForGives(s1, inFace);
    if !s.faces[inFace].local && UnderPrefix(LOCALHOST, interest.name) {
    } else if isDead {
      LoopOk(s1, inFace, interest);
    } else {
      var i := Arrived(interest);
      ArrivedOk(interest);
      var k, s2 := KeyOf(i), InsertPit(s1, i);
      InsertPitOk(s1, i);
      if HasDuplicateNonce(s2.pit[k], i.nonce) {
        LoopOk(s2, inFace, i);
      } else {
        var s3 := WithEntry(s2, k, Cancelled(s2.pit[k]));
        SetEntry(s2, k, Cancelled(s2.pit[k]));
        CancelledShape(s2.faces, k, s2.pit[k]);
        LocalOthers(s2, s3, k);
        LocalHas(s2, s3, k);
        assert CreditFor(s3, inFace);
        if s3.pit[k].inRecords == [] && hit.Some? {
          HitOk(s3, k, inFace, hit.value, now);
        } else {
          MissOk(s3, k, inFace, i, word, actions, now);
        }
      }
    }
  }

  lemma CancelledShape(faces: map<FaceId, Face>, k: Key, e: Entry)
    requires Shape(faces, k, e)
    ensures Shape(faces, k, Cancelled(e))
  {
  }

  // Data

  ghost predicate Awaits(records: seq<InRecord>, f: FaceId, now: int) {
    exists i :: 0 <= i < |records| && records[i].face == f && records[i].expiry > now
  }

  /** Pending downstreams are remembered once each: those known before, and those with an in-record
      that has not expired. */
  lemma {:induction false} PendingOk(records: seq<InRecord>, known: seq<FaceId>, now: int)
    requires NoDuplicates(known)
    ensures NoDuplicates(Pending(records, known, now))
    ensures forall f :: f in Pending(records, known, now) <==> f in known || Awaits(records, f, now)
  {
    if records != [] {
      var r, rest := records[0], records[1..];
      var next := if r.expiry > now && r.face !in known then known + [r.face] else known;
      PendingOk(rest, next, now);
      forall f ensures Awaits(records, f, now) <==> Awaits(rest, f, now) || (r.face == f && r.expiry > now) {
        if i :| 0 <= i < |rest| && rest[i].face == f && rest[i].expiry > now {
          assert records[i + 1] == rest[i];
        }
        if i :| 1 <= i < |records| && records[i].face == f && records[i].expiry > now {
          assert rest[i - 1] == records[i];
        }
      }
    }
  }

  /** Marking an entry satisfied frees the credit of the in-records that the strategy has left. */
  lemma SatisfyOk(s: State, k: Key, inFace: FaceId, data: Data, actions: seq<Action>, now: int)
    requires k in s.pit && Shape(s.faces, k, s.pit[k]) && OthersOk(s, k) && IdsOk(s)
    ensures var r := Satisfy(s, k, inFace, data, actions, now);
      EntriesOk(r) && IdsOk(r) && r.faces == s.faces && r.pit.Keys == s.pit.Keys &&
      (forall m :: m in s.pit && m != k ==> r.pit[m] == s.pit[m]) &&
      forall f :: Credit(r, f) == Credit(s, f) + if Survives(s, k, actions, f) then 1 else 0
  {
    hide Credit, Shape, TimersOk, OthersOk, EntriesOk, IdsOk, PerformAll, DeadNonces, Delete, NacksTo, Has;
    var s0 := WithEntry(s, k, Cancelled(s.pit[k]));
    SetEntry(s, k, Cancelled(s.pit[k]));
    CancelledShape(s.faces, k, s.pit[k]);
    LocalOthers(s, s0, k);
    PerformAllOk(s0, k, actions, now);
    var s1 := PerformAll(s0, k, actions, now);
    LocalOthers(s0, s1, k);
    var e := s1.pit[k];
    var e2 := WithStragglerTimer(e.(inRecords := [], outRecords := Delete(e.outRecords, inFace)), true, data.freshness, now);
    var s2 := WithEntry(s1, k, e2);
    SetEntry(s1, k, e2);
    LocalOthers(s1, s2, k);
    SatisfiedEntry(s.faces, k, e, inFace, data.freshness, now);
    OthersAndOne(s2, k);
    var r := Satisfy(s, k, inFace, data, actions, now);
    assert r == s2.(dead := r.dead);
    EntriesOnly(s2, r);
    forall f ensures Credit(r, f) == Credit(s, f) + if Survives(s, k, actions, f) then 1 else 0 {
      CreditOnly(s2, r, f);
      HasNone(f);
    }
  }

  lemma HasNone(f: FaceId)
    ensures !Has<Interest>([], f)
  {
  }

  lemma CreditOnly(a: State, b: State, f: FaceId)
    requires b.received == a.received && b.sent == a.sent && b.pit == a.pit
    ensures Credit(b, f) == Credit(a, f)
  {
  }

  lemma SatisfiedEntry(faces: map<FaceId, Face>, k: Key, e: Entry, inFace: FaceId, freshness: int, now: int)
    requires Shape(faces, k, e) && e.unsatisfyTimer.None?
    ensures var r := WithStragglerTimer(e.(inRecords := [], outRecords := Delete(e.outRecords, inFace)), true, freshness, now);
      Shape(faces, k, r) && TimersOk(r)
  {
    hide Q.Contains, Delete;
    DeleteOk(e.outRecords, inFace);
    LiveSubset(faces, e.outRecords, Delete(e.outRecords, inFace));
  }

  ghost predicate DistinctKeys(matches: seq<Match>) {
    forall i, j :: 0 <= i < j < |matches| ==> matches[i].key != matches[j].key
  }

  /** A match that still has the face's in-record when it is satisfied. */
  ghost predicate Keeps(s: State, m: Match, f: FaceId) {
    m.key in s.pit && Survives(s, m.key, m.actions, f)
  }

  /** How many matches do. */
  ghost function KeptBy(s: State, matches: seq<Match>, f: FaceId): nat {
    if matches == [] then 0
    else KeptBy(s, matches[..|matches| - 1], f) + if Keeps(s, matches[|matches| - 1], f) then 1 else 0
  }

  ghost predicate AwaitsIn(s: State, m: Match, f: FaceId, now: int) {
    m.key in s.pit && Awaits(s.pit[m.key].inRecords, f, now)
  }

  /** Whether one of the matching entries has an in-record of the face that has not expired. */
  ghost predicate IsPending(s: State, matches: seq<Match>, f: FaceId, now: int) {
    exists i :: 0 <= i < |matches| && AwaitsIn(s, matches[i], f, now)
  }

  lemma PendingInit(s: State, matches: seq<Match>, f: FaceId, now: int)
    requires matches != []
    ensures var n := |matches| - 1;
      IsPending(s, matches, f, now) <==> IsPending(s, matches[..n], f, now) || AwaitsIn(s, matches[n], f, now)
  {
    hide AwaitsIn;
    var n := |matches| - 1;
    var init := matches[..n];
    if i :| 0 <= i < n && AwaitsIn(s, init[i], f, now) {
      assert AwaitsIn(s, matches[i], f, now);
    }
    if i :| 0 <= i < n && AwaitsIn(s, matches[i], f, now) {
      assert AwaitsIn(s, init[i], f, now);
    }
  }

  lemma SatisfyLast(s: State, k: Key, inFace: FaceId, data: Data, actions: seq<Action>, now: int)
    requires Inv(s) && k in s.pit
    ensures var r := Satisfy(s, k, inFace, data, actions, now);
      Inv(r) && r.faces == s.faces && r.pit.Keys == s.pit.Keys &&
      (forall m :: m in s.pit && m != k ==> r.pit[m] == s.pit[m]) &&
      forall f :: Credit(r, f) == Credit(s, f) + if Survives(s, k, actions, f) then 1 else 0
  {
    hide Credit, EntriesOk, IdsOk, Satisfy, Shape, TimersOk, OthersOk, Has, NacksTo;
    EntryOf(s, k);
    SatisfyOk(s, k, inFace, data, actions, now);
    forall f ensures Credit(Satisfy(s, k, inFace, data, actions, now), f) >= 0 {
      assert Credit(s, f) >= 0;
    }
  }

  lemma SatisfyAllNone(s: State, inFace: FaceId, data: Data, now: int)
    ensures SatisfyAll(s, [], inFace, data, now) == (s, [])
  {
  }

  lemma SatisfyAllStep(s: State, matches: seq<Match>, inFace: FaceId, data: Data, now: int)
    requires KeysIn(matches, s) && matches != []
    ensures var n := |matches| - 1;
      var (s1, pending) := SatisfyAll(s, matches[..n], inFace, data, now);
      matches[n].key in s1.pit &&
      SatisfyAll(s, matches, inFace, data, now) ==
        (Satisfy(s1, matches[n].key, inFace, data, matches[n].actions, now),
         Pending(s1.pit[matches[n].key].inRecords, pending, now))
  {
    hide Satisfy, Pending;
  }

  /** The entries of other keys. */
  ghost predicate OthersSame(a: State, b: State, matches: seq<Match>) {
    forall m :: m in a.pit && (forall i :: 0 <= i < |matches| ==> matches[i].key != m) ==> m in b.pit && b.pit[m] == a.pit[m]
  }

  /** What holds of all matches holds of the first ones. */
  lemma FirstMatches(s: State, matches: seq<Match>)
    requires KeysIn(matches, s) && DistinctKeys(matches) && matches != []
    ensures var n := |matches| - 1;
      KeysIn(matches[..n], s) && DistinctKeys(matches[..n]) && matches[n].key in s.pit &&
      forall i :: 0 <= i < n ==> matches[..n][i].key != matches[n].key
  {
  }

  /** The matching entries one after the other keep the invariant. */
  lemma {:induction false} SatisfyAllOk(s: State, matches: seq<Match>, inFace: FaceId, data: Data, now: int)
    requires Inv(s) && KeysIn(matches, s) && DistinctKeys(matches)
    ensures var r := SatisfyAll(s, matches, inFace, data, now).0;
      Inv(r) && r.faces == s.faces && OthersSame(s, r, matches)
  {
    hide Credit, Inv, Satisfy, Pending, SatisfyAll, KeysIn, DistinctKeys;
    if matches == [] {
      SatisfyAllNone(s, inFace, data, now);
    } else {
      var n := |matches| - 1;
      FirstMatches(s, matches);
      SatisfyAllOk(s, matches[..n], inFace, data, now);
      SatisfyAllStep(s, matches, inFace, data, now);
      SatisfyLast(SatisfyAll(s, matches[..n], inFace, data, now).0, matches[n].key, inFace, data, matches[n].actions, now);
    }
  }

  /** Credit grows with every in-record that the strategy has left. */
  lemma {:induction false} SatisfyAllCredit(s: State, matches: seq<Match>, inFace: FaceId, data: Data, now: int)
    requires Inv(s) && KeysIn(matches, s) && DistinctKeys(matches)
    ensures forall f :: Credit(SatisfyAll(s, matches, inFace, data, now).0, f) == Credit(s, f) + KeptBy(s, matches, f)
  {
    hide Credit, Inv, Satisfy, Pending, Has, NacksTo, SatisfyAll, KeysIn, DistinctKeys;
    if matches == [] {
      SatisfyAllNone(s, inFace, data, now);
    } else {
      var n := |matches| - 1;
      FirstMatches(s, matches);
      SatisfyAllCredit(s, matches[..n], inFace, data, now);
      SatisfyAllOk(s, matches[..n], inFace, data, now);
      SatisfyAllStep(s, matches, inFace, data, now);
      var s1 := SatisfyAll(s, matches[..n], inFace, data, now).0;
      assert s1.pit[matches[n].key] == s.pit[matches[n].key];
      SatisfyLast(s1, matches[n].key, inFace, data, matches[n].actions, now);
    }
  }

  /** Pending downstreams are whoever was waiting at the start, each once. */
  lemma {:induction false} SatisfyAllPending(s: State, matches: seq<Match>, inFace: FaceId, data: Data, now: int)
    requires Inv(s) && KeysIn(matches, s) && DistinctKeys(matches)
    ensures var pending := SatisfyAll(s, matches, inFace, data, now).1;
      NoDuplicates(pending) && forall f :: f in pending <==> IsPending(s, matches, f, now)
  {
    hide Inv, Satisfy, Pending, Awaits, SatisfyAll, IsPending, KeysIn, DistinctKeys;
    if matches == [] {
      SatisfyAllNone(s, inFace, data, now);
      NonePending(s, now);
    } else {
      var n := |matches| - 1;
      FirstMatches(s, matches);
      SatisfyAllPending(s, matches[..n], inFace, data, now);
      SatisfyAllOk(s, matches[..n], inFace, data, now);
      SatisfyAllStep(s, matches, inFace, data, now);
      var (s1, pending) := SatisfyAll(s, matches[..n], inFace, data, now);
      assert s1.pit[matches[n].key] == s.pit[matches[n].key];
      PendingOk(s.pit[matches[n].key].inRecords, pending, now);
      forall f ensures f in SatisfyAll(s, matches, inFace, data, now).1 <==> IsPending(s, matches, f, now) {
        PendingInit(s, matches, f, now);
      }
    }
  }

  lemma NonePending(s: State, now: int)
    ensures NoDuplicates<FaceId>([]) && forall f :: !IsPending(s, [], f, now)
  {
  }

  lemma EntryOf(s: State, k: Key)
    requires EntriesOk(s) && k in s.pit
    ensures Shape(s.faces, k, s.pit[k]) && TimersOk(s.pit[k]) && OthersOk(s, k)
  {
  }

  lemma {:induction false} SendAllOk(s: State, data: Data, faces: seq<FaceId>, inFace: FaceId)
    requires NoDuplicates(faces)
    ensures var r := SendAll(s, data, faces, inFace);
      r == s.(sent := r.sent) &&
      forall f :: Credit(r, f) == Credit(s, f) - if f in faces && f != inFace && Reachable(s, f, data) then 1 else 0
  {
    hide Credit, Reachable, OnOutgoingData;
    if faces != [] {
      var n := |faces| - 1;
      var init := faces[..n];
      assert faces == init + [faces[n]];
      SendAllOk(s, data, init, inFace);
      var mid := SendAll(s, data, init, inFace);
      var r := SendAll(s, data, faces, inFace);
      DataOut(mid, data, faces[n], faces[n]);
      forall f ensures Credit(r, f) == Credit(s, f) - if f in faces && f != inFace && Reachable(s, f, data) then 1 else 0 {
        DataOut(mid, data, faces[n], f);
        ReachableOnly(s, mid, f, data);
        ReachableOnly(s, mid, faces[n], data);
      }
    }
  }

  lemma ReachableOnly(a: State, b: State, f: FaceId, d: Data)
    requires a.faces == b.faces
    ensures Reachable(a, f, d) <==> Reachable(b, f, d)
  {
  }

  /** Whether the face is sent the Data: it waits in a matching entry, is not where the Data came
      from, and may have it. */
  ghost predicate Gets(s: State, inFace: FaceId, d: Data, matches: seq<Match>, f: FaceId, now: int) {
    IsPending(s, matches, f, now) && f != inFace && Reachable(s, f, d)
  }

  /** The Data pipeline goes beyond the scope check. */
  predicate Admitted(s: State, inFace: FaceId, data: Data) {
    inFace in s.faces && (s.faces[inFace].local || !UnderPrefix(LOCALHOST, data.name))
  }

  /** The account of the Data pipeline, whatever the strategy does in its triggers: a face gains one
      for every matching entry that still had its in-record, and spends one if it is sent the Data. */
  lemma DataCredit(s: State, inFace: FaceId, data: Data, matches: seq<Match>, admit: bool, now: int)
    requires Inv(s) && Admitted(s, inFace, data) && KeysIn(matches, s) && DistinctKeys(matches)
    ensures var r, d := OnIncomingData(s, inFace, data, matches, admit, now), Restored(data);
      EntriesOk(r) && IdsOk(r) && r.faces == s.faces &&
      forall f :: Credit(r, f) == Credit(s, f) + KeptBy(s, matches, f) - if Gets(s, inFace, d, matches, f, now) then 1 else 0
  {
    hide Credit, EntriesOk, IdsOk, SatisfyAll, SendAll, UnderPrefix, Restored, IsPending, Reachable, Has, NacksTo;
    var d := Restored(data);
    var r := OnIncomingData(s, inFace, data, matches, admit, now);
    var s0 := s.(cached := s.cached + [(d, matches == [])]);
    CachedOk(s, (d, matches == []));
    if matches == [] {
      NonePending(s, now);
      EntriesOnly(s, r);
      forall f ensures Credit(r, f) == Credit(s, f) {
        CreditOnly(s, r, f);
      }
    } else {
      SatisfyAllOk(s0, matches, inFace, d, now);
      SatisfyAllCredit(s0, matches, inFace, d, now);
      SatisfyAllPending(s0, matches, inFace, d, now);
      var (s1, pending) := SatisfyAll(s0, matches, inFace, d, now);
      SendAllOk(s1, d, pending, inFace);
      EntriesOnly(s1, r);
      forall f ensures Credit(r, f) == Credit(s, f) + KeptBy(s, matches, f) - if Gets(s, inFace, d, matches, f, now) then 1 else 0 {
        CreditOnly(s, s0, f);
        SameFor(s, s0, matches, f, now);
        ReachableOnly(s, s1, f, d);
      }
    }
  }

  /** Only the PIT and the faces matter. */
  lemma {:induction false} SameFor(a: State, b: State, matches: seq<Match>, f: FaceId, now: int)
    requires a.pit == b.pit && a.faces == b.faces
    ensures KeptBy(a, matches, f) == KeptBy(b, matches, f)
    ensures IsPending(a, matches, f, now) <==> IsPending(b, matches, f, now)
  {
    hide Has, NacksTo, Awaits;
    assert forall i :: 0 <= i < |matches| ==> (AwaitsIn(a, matches[i], f, now) <==> AwaitsIn(b, matches[i], f, now));
    if matches != [] {
      SameFor(a, b, matches[..|matches| - 1], f, now);
    }
  }

  lemma CachedOk(s: State, entry: (Data, bool))
    requires Inv(s)
    ensures Inv(s.(cached := s.cached + [entry]))
  {
    hide Shape, TimersOk;
    var r := s.(cached := s.cached + [entry]);
    forall f ensures Credit(r, f) >= 0 {
      CreditOnly(s, r, f);
      assert Credit(s, f) >= 0;
    }
  }

  /** Every face that is sent the Data still has its in-record in one of the entries: no Nack went out
      on it there, because the strategy sent none or the face takes none. */
  ghost predicate NoneOverdrawn(s: State, inFace: FaceId, d: Data, matches: seq<Match>, now: int) {
    forall f :: Gets(s, inFace, d, matches, f, now) ==> exists i :: 0 <= i < |matches| && Keeps(s, matches[i], f)
  }

  lemma {:induction false} KeptBySome(s: State, matches: seq<Match>, f: FaceId)
    ensures KeptBy(s, matches, f) > 0 <==> exists i :: 0 <= i < |matches| && Keeps(s, matches[i], f)
  {
    hide Keeps;
    if matches != [] {
      var init := matches[..|matches| - 1];
      KeptBySome(s, init, f);
      assert forall i :: 0 <= i < |init| ==> init[i] == matches[i];
      if i :| 0 <= i < |init| && Keeps(s, init[i], f) {
        assert Keeps(s, matches[i], f);
      }
      if i :| 0 <= i < |init| && Keeps(s, matches[i], f) {
        assert Keeps(s, init[i], f);
      }
    }
  }

  /** No face loses credit to incoming Data if and only if none is overdrawn. */
  lemma NoLossIffNoneOverdrawn(s: State, inFace: FaceId, data: Data, matches: seq<Match>, admit: bool, now: int)
    requires Inv(s) && Admitted(s, inFace, data) && KeysIn(matches, s) && DistinctKeys(matches)
    ensures (forall f :: Credit(OnIncomingData(s, inFace, data, matches, admit, now), f) >= Credit(s, f)) <==>
      NoneOverdrawn(s, inFace, Restored(data), matches, now)
  {
    hide Credit, EntriesOk, IdsOk, OnIncomingData, Restored, Gets, Keeps;
    DataCredit(s, inFace, data, matches, admit, now);
    forall f ensures KeptBy(s, matches, f) > 0 <==> exists i :: 0 <= i < |matches| && Keeps(s, matches[i], f) {
      KeptBySome(s, matches, f);
    }
  }

  lemma IncomingDataOk(s: State, inFace: FaceId, data: Data, matches: seq<Match>, admit: bool, now: int)
    requires Inv(s) && inFace in s.faces && KeysIn(matches, s) && DistinctKeys(matches)
    requires NoneOverdrawn(s, inFace, Restored(data), matches, now)
    ensures Inv(OnIncomingData(s, inFace, data, matches, admit, now))
  {
    hide Credit, EntriesOk, IdsOk, NoneOverdrawn, UnderPrefix, Restored, SatisfyAll, SendAll, Gets;
    if Admitted(s, inFace, data) {
      DataCredit(s, inFace, data, matches, admit, now);
      NoLossIffNoneOverdrawn(s, inFace, data, matches, admit, now);
      forall f ensures Credit(OnIncomingData(s, inFace, data, matches, admit, now), f) >= 0 {
        assert Credit(s, f) >= 0;
      }
    }
  }

  // Nacks, timers and faces

  lemma IncomingNackOk(s: State, inFace: FaceId, nackInterest: Interest, actions: seq<Action>, now: int)
    requires Inv(s) && inFace in s.faces
    ensures Inv(OnIncomingNack(s, inFace, nackInterest, actions, now))
  {
    hide Credit, Shape, TimersOk, OthersOk, EntriesOk, IdsOk, PerformAll, Local;
    var k := KeyOf(nackInterest);
    var r := OnIncomingNack(s, inFace, nackInterest, actions, now);
    if r != s {
      var e := s.pit[k];
      var i := IndexOf(e.outRecords, inFace).value;
      var e1 := e.(outRecords := e.outRecords[i := e.outRecords[i].(attached := true)]);
      var s1 := WithEntry(s, k, e1);
      EntryOf(s, k);
      SetEntry(s, k, e1);
      NackedEntry(s.faces, k, e, i);
      LocalOthers(s, s1, k);
      PerformAllOk(s1, k, actions, now);
      LocalOthers(s1, r, k);
      LocalHas(s1, r, k);
      OthersAndOne(r, k);
      forall f ensures Credit(r, f) >= 0 {
        assert Credit(s, f) >= 0;
      }
    }
  }

  lemma NackedEntry(faces: map<FaceId, Face>, k: Key, e: Entry, i: nat)
    requires Shape(faces, k, e) && TimersOk(e) && i < |e.outRecords|
    ensures var r := e.(outRecords := e.outRecords[i := e.outRecords[i].(attached := true)]);
      Shape(faces, k, r) && TimersOk(r)
  {
    hide Q.Contains;
  }

  lemma StrategyTimerOk(s: State, k: Key, actions: seq<Action>, now: int)
    requires Inv(s) && k in s.pit
    ensures Inv(PerformAll(s, k, actions, now))
  {
    hide Credit, Shape, TimersOk, OthersOk, EntriesOk, IdsOk, PerformAll, Local;
    var r := PerformAll(s, k, actions, now);
    EntryOf(s, k);
    PerformAllOk(s, k, actions, now);
    LocalOthers(s, r, k);
    LocalHas(s, r, k);
    OthersAndOne(r, k);
    forall f ensures Credit(r, f) >= 0 {
      assert Credit(s, f) >= 0;
    }
  }

  /** An entry goes, and its id with it. */
  lemma FinalizeOk(s: State, k: Key, isSatisfied: bool, freshness: int)
    requires k in s.pit && OthersOk(s, k) && IdsOk(s) && Balanced(s)
    ensures Inv(OnInterestFinalize(s, k, isSatisfied, freshness))
  {
    hide Shape, TimersOk, Has, AnswersTo, DeadNonces;
    var r := OnInterestFinalize(s, k, isSatisfied, freshness);
    forall f ensures Credit(r, f) >= 0 {
      assert Credit(s, f) >= 0;
      HoldersRemove(s.pit, k, f);
    }
    FinalizedIds(s, k);
  }

  lemma FinalizedIds(s: State, k: Key)
    requires IdsOk(s) && k in s.pit
    ensures IdsOk(s.(pit := s.pit - {k}, finalized := s.finalized + [s.pit[k].id]))
  {
    var r := s.(pit := s.pit - {k}, finalized := s.finalized + [s.pit[k].id]);
    forall i, j | 0 <= i < j < |r.finalized| ensures r.finalized[i] != r.finalized[j] {
      if j == |s.finalized| {
        assert s.finalized[i] in s.finalized;
      }
    }
  }

  lemma UnsatisfiedOk(s: State, k: Key, actions: seq<Action>, now: int)
    requires Inv(s) && k in s.pit
    ensures Inv(OnInterestUnsatisfied(WithEntry(s, k, s.pit[k].(unsatisfyTimer := None)), k, actions, now))
  {
    hide OthersOk, IdsOk, Balanced, PerformAll, OnInterestFinalize, Inv;
    UnsatisfiedReady(s, k, actions, now);
    FinalizeOk(PerformAll(WithEntry(s, k, s.pit[k].(unsatisfyTimer := None)), k, actions, now), k, false, -1);
  }

  /** Once the strategy has acted, the entry is ready to be finalised. */
  lemma UnsatisfiedReady(s: State, k: Key, actions: seq<Action>, now: int)
    requires Inv(s) && k in s.pit
    ensures var s2 := PerformAll(WithEntry(s, k, s.pit[k].(unsatisfyTimer := None)), k, actions, now);
      k in s2.pit && OthersOk(s2, k) && IdsOk(s2) && Balanced(s2)
  {
    hide Credit, Shape, TimersOk, OthersOk, EntriesOk, IdsOk, PerformAll, Local;
    var e := s.pit[k].(unsatisfyTimer := None);
    var s1 := WithEntry(s, k, e);
    EntryOf(s, k);
    SetEntry(s, k, e);
    LocalOthers(s, s1, k);
    FiredShape(s.faces, k, s.pit[k]);
    PerformAllOk(s1, k, actions, now);
    var s2 := PerformAll(s1, k, actions, now);
    LocalOthers(s1, s2, k);
    forall f ensures Credit(s2, f) >= 0 {
      assert Credit(s, f) >= 0;
    }
  }

  lemma FiredShape(faces: map<FaceId, Face>, k: Key, e: Entry)
    requires Shape(faces, k, e)
    ensures Shape(faces, k, e.(unsatisfyTimer := None))
  {
  }

  lemma RemoveFaceOk(s: State, face: FaceId)
    requires Inv(s)
    ensures Inv(RemoveFace(s, face))
    ensures forall k :: k in RemoveFace(s, face).pit ==>
      !Has(RemoveFace(s, face).pit[k].inRecords, face) && !Has(RemoveFace(s, face).pit[k].outRecords, face)
  {
    hide Q.Contains, AnswersTo, Delete, Has, Shape, TimersOk;
    var r := RemoveFace(s, face);
    forall k | k in s.pit
      ensures Shape(r.faces, k, r.pit[k]) && TimersOk(r.pit[k])
      ensures !Has(r.pit[k].inRecords, face) && !Has(r.pit[k].outRecords, face)
      ensures forall f :: Has(r.pit[k].inRecords, f) ==> Has(s.pit[k].inRecords, f)
    {
      RemovedEntry(s, k, face);
    }
    forall f ensures Credit(r, f) >= 0 {
      assert Credit(s, f) >= 0;
      assert Holders(r.pit, f) <= Holders(s.pit, f);
      SubsetCardinality(Holders(r.pit, f), Holders(s.pit, f));
    }
  }

  lemma RemovedEntry(s: State, k: Key, face: FaceId)
    requires k in s.pit && Shape(s.faces, k, s.pit[k]) && TimersOk(s.pit[k])
    ensures var e := s.pit[k].(inRecords := Delete(s.pit[k].inRecords, face), outRecords := Delete(s.pit[k].outRecords, face));
      Shape(s.faces - {face}, k, e) && TimersOk(e) && !Has(e.inRecords, face) && !Has(e.outRecords, face) &&
      forall f :: Has(e.inRecords, f) ==> Has(s.pit[k].inRecords, f)
  {
    hide Q.Contains, Delete;
    var e := s.pit[k];
    var ins, outs := Delete(e.inRecords, face), Delete(e.outRecords, face);
    DeleteOk(e.inRecords, face);
    DeleteOk(e.outRecords, face);
    LiveAfter(s.faces, e.inRecords, ins, face);
    LiveAfter(s.faces, e.outRecords, outs, face);
    KeySubset(k, e.inRecords, ins);
    if e.unsatisfyTimer.Some? {
      ExpirySubset(e.inRecords, ins, e.unsatisfyTimer.value);
    }
  }

  lemma LiveAfter<T(!new)>(faces: map<FaceId, Face>, before: seq<Record<T>>, after: seq<Record<T>>, face: FaceId)
    requires FacesLive(faces, before) && !Has(after, face) && forall i :: 0 <= i < |after| ==> after[i] in before
    ensures FacesLive(faces - {face}, after)
  {
    HasIff(after, face);
  }

  // Runs

  datatype Step =
    | FaceAdded(face: FaceId, properties: Face)
    | InterestArrives(inFace: FaceId, interest: Interest, isDead: bool, hit: Option<Data>, word: string, actions: seq<Action>)
    | DataArrives(inFace: FaceId, data: Data, matches: seq<Match>, admit: bool)
    | NackArrives(inFace: FaceId, nackInterest: Interest, actions: seq<Action>)
    | UnsatisfyTimerFires(key: Key, actions: seq<Action>)
    | StragglerTimerFires(key: Key)
    | StrategyTimerFires(key: Key, actions: seq<Action>)
    | FaceRemoved(face: FaceId)

  datatype Timed = Timed(now: int, step: Step)

  /** The matching entries, each once. */
  ghost predicate ExactMatches(s: State, d: Data, matches: seq<Match>, selects: (nat, Data) -> bool) {
    KeysIn(matches, s) && DistinctKeys(matches) &&
    forall k :: k in s.pit ==> (MatchesData(s.pit[k].interest, d, selects) <==> exists i :: 0 <= i < |matches| && matches[i].key == k)
  }

  /** Packets come from live faces; timers fire when pending and due; a strategy holds on to entries
      that are in the PIT only, and overdraws no face before its entry is satisfied. */
  ghost predicate Possible(s: State, t: Timed, selects: (nat, Data) -> bool) {
    match t.step
    case FaceAdded(face, _) => face !in s.faces
    case InterestArrives(inFace, _, _, _, _, _) => inFace in s.faces
    case DataArrives(inFace, data, matches, _) =>
      inFace in s.faces && ExactMatches(s, Restored(data), matches, selects) &&
      NoneOverdrawn(s, inFace, Restored(data), matches, t.now)
    case NackArrives(inFace, _, _) => inFace in s.faces
    case UnsatisfyTimerFires(k, _) => k in s.pit && s.pit[k].unsatisfyTimer.Some? && s.pit[k].unsatisfyTimer.value <= t.now
    case StragglerTimerFires(k) => k in s.pit && s.pit[k].stragglerTimer.Some? && s.pit[k].stragglerTimer.value.time <= t.now
    case StrategyTimerFires(k, _) => k in s.pit
    case FaceRemoved(face) => true
  }

  ghost function Apply(s: State, t: Timed, selects: (nat, Data) -> bool): State
    requires Possible(s, t, selects)
  {
    match t.step
    case FaceAdded(face, properties) => s.(faces := s.faces[face := properties])
    case InterestArrives(inFace, interest, isDead, hit, word, actions) =>
      OnIncomingInterest(s, inFace, interest, isDead, hit, word, actions, t.now)
    case DataArrives(inFace, data, matches, admit) => OnIncomingData(s, inFace, data, matches, admit, t.now)
    case NackArrives(inFace, nackInterest, actions) => OnIncomingNack(s, inFace, nackInterest, actions, t.now)
    case UnsatisfyTimerFires(k, actions) =>
      OnInterestUnsatisfied(WithEntry(s, k, s.pit[k].(unsatisfyTimer := None)), k, actions, t.now)
    case StragglerTimerFires(k) =>
      var timer := s.pit[k].stragglerTimer.value;
      OnInterestFinalize(s, k, timer.isSatisfied, timer.freshness)
    case StrategyTimerFires(k, actions) => PerformAll(s, k, actions, t.now)
    case FaceRemoved(face) => RemoveFace(s, face)
  }

  lemma FaceAddedOk(s: State, face: FaceId, properties: Face)
    requires Inv(s)
    ensures Inv(s.(faces := s.faces[face := properties]))
  {
    hide Q.Contains, TimersOk;
    var r := s.(faces := s.faces[face := properties]);
    forall k | k in r.pit ensures Shape(r.faces, k, r.pit[k]) && TimersOk(r.pit[k]) {
      assert Shape(s.faces, k, s.pit[k]);
    }
    forall f ensures Credit(r, f) >= 0 {
      assert Credit(s, f) >= 0;
    }
  }

  /** One step keeps the invariant. */
  lemma StepOk(s: State, t: Timed, selects: (nat, Data) -> bool)
    requires Inv(s) && Possible(s, t, selects)
    ensures Inv(Apply(s, t, selects))
  {
    hide Inv, OnIncomingInterest, OnIncomingData, OnIncomingNack, OnInterestUnsatisfied, OnInterestFinalize, PerformAll, RemoveFace;
    match t.step {
      case FaceAdded(face, properties) => FaceAddedOk(s, face, properties);
      case InterestArrives(inFace, interest, isDead, hit, word, actions) =>
        IncomingInterestOk(s, inFace, interest, isDead, hit, word, actions, t.now);
      case DataArrives(inFace, data, matches, admit) => IncomingDataOk(s, inFace, data, matches, admit, t.now);
      case NackArrives(inFace, nackInterest, actions) => IncomingNackOk(s, inFace, nackInterest, actions, t.now);
      case UnsatisfyTimerFires(k, actions) => UnsatisfiedOk(s, k, actions, t.now);
      case StragglerTimerFires(k) =>
        InvParts(s, k);
        FinalizeOk(s, k, s.pit[k].stragglerTimer.value.isSatisfied, s.pit[k].stragglerTimer.value.freshness);
      case StrategyTimerFires(k, actions) => StrategyTimerOk(s, k, actions, t.now);
      case FaceRemoved(face) => RemoveFaceOk(s, face);
    }
  }

  lemma InvParts(s: State, k: Key)
    requires Inv(s)
    ensures Balanced(s) && IdsOk(s) && OthersOk(s, k)
  {
  }

  const START: State := State(map[], map[], 0, [], [], [], [], [])

  /** The state after a run; what cannot happen is left out. */
  ghost function Run(steps: seq<Timed>, selects: (nat, Data) -> bool): State {
    if steps == [] then START
    else
      var before := Run(steps[..|steps| - 1], selects);
      if Possible(before, steps[|steps| - 1], selects) then Apply(before, steps[|steps| - 1], selects) else before
  }

  lemma {:induction false} RunOk(steps: seq<Timed>, selects: (nat, Data) -> bool)
    ensures Inv(Run(steps, selects))
  {
    hide Inv, Possible, Apply;
    if steps == [] {
      StartOk();
    } else {
      var before := Run(steps[..|steps| - 1], selects);
      RunOk(steps[..|steps| - 1], selects);
      if Possible(before, steps[|steps| - 1], selects) {
        StepOk(before, steps[|steps| - 1], selects);
      }
    }
  }

  lemma StartOk()
    ensures Inv(START)
  {
    forall f ensures Credit(START, f) >= 0 {
      assert Holders(START.pit, f) == {};
    }
  }

  /** Flow balance: no face is sent more Data and Nacks than it sent Interests, even counting the
      in-records it still has. */
  lemma FlowBalance(steps: seq<Timed>, selects: (nat, Data) -> bool, f: FaceId)
    ensures var s := Run(steps, selects);
      AnswersTo(s.sent, f) + |Holders(s.pit, f)| <= multiset(s.received)[f]
  {
    hide Run, EntriesOk, IdsOk;
    RunOk(steps, selects);
    assert Credit(Run(steps, selects), f) >= 0;
  }

  /** Timer discipline: between pipelines an entry has exactly one timer pending, and the unsatisfy
      timer fires no earlier than any of its in-records expires. */
  lemma TimerDiscipline(steps: seq<Timed>, selects: (nat, Data) -> bool, k: Key)
    requires k in Run(steps, selects).pit
    ensures var e := Run(steps, selects).pit[k];
      (e.unsatisfyTimer.Some? <==> e.stragglerTimer.None?) &&
      (e.unsatisfyTimer.Some? ==> forall i :: 0 <= i < |e.inRecords| ==> e.inRecords[i].expiry <= e.unsatisfyTimer.value)
  {
    hide Run, Balanced, IdsOk;
    RunOk(steps, selects);
  }

  /** Every entry is finalised at most once, and none that has been is in the PIT. */
  lemma FinalisedAtMostOnce(steps: seq<Timed>, selects: (nat, Data) -> bool)
    ensures var s := Run(steps, selects);
      NoDuplicates(s.finalized) &&
      (forall k :: k in s.pit ==> s.pit[k].id !in s.finalized) &&
      forall k, m :: k in s.pit && m in s.pit && s.pit[k].id == s.pit[m].id ==> k == m
  {
    hide Run, Balanced, EntriesOk;
    RunOk(steps, selects);
  }

  /** PIT entry and in-records carry the name the entry is found by, which has no queried part,
      and records belong to live faces, one for each. */
  lemma NamesKept(steps: seq<Timed>, selects: (nat, Data) -> bool, k: Key)
    requires k in Run(steps, selects).pit
    ensures var s := Run(steps, selects); var e := s.pit[k];
      e.interest.name == k.name && Q.Cut(k.name) == k.name && OnePerFace(e.inRecords) && OnePerFace(e.outRecords) &&
      forall i :: 0 <= i < |e.inRecords| ==> e.inRecords[i].attached.name == k.name && e.inRecords[i].face in s.faces
  {
    hide Run, Balanced, IdsOk;
    RunOk(steps, selects);
    assert Shape(Run(steps, selects).faces, k, Run(steps, selects).pit[k]);
  }
}
