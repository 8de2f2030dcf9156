/** What the pipelines do, told by their effects on records, timers and packets (fw/forwarder.cpp). */
module ForwarderEffects {
  import opened Common
  import opened Forwarder
  import opened ForwarderRuns
  import opened ForwarderResults
  import Q = QueryRewriting

  // An Interest arrives

  /** The entry of the Interest has a record with this nonce. */
  ghost predicate NonceSeen(s: State, k: Key, nonce: nat) {
    k in s.pit &&
    ((exists i :: 0 <= i < |s.pit[k].inRecords| && s.pit[k].inRecords[i].nonce == nonce) ||
     (exists i :: 0 <= i < |s.pit[k].outRecords| && s.pit[k].outRecords[i].nonce == nonce))
  }

  predicate InScope(s: State, inFace: FaceId, interest: Interest)
    requires inFace in s.faces
  {
    s.faces[inFace].local || !UnderPrefix(LOCALHOST, interest.name)
  }

  /** The PIT entry of an Interest is looked up under its cut name. */
  function CutKey(interest: Interest): Key {
    Key(Q.Cut(interest.name), interest.selectors)
  }

  /** Nothing happens but that the Interest came in and, on a face that takes it, a Nack goes back. */
  predicate Refused(before: State, after: State, inFace: FaceId, name: string, nonce: nat)
    requires inFace in before.faces
  {
    after == before.(received := before.received + [inFace],
                     sent := before.sent + if before.faces[inFace].multiAccess then [] else [SentNack(inFace, name, nonce, Duplicate)])
  }

  /** An Interest is refused as out of scope, as dead, or as looping: the last if its nonce is on a
      record of its PIT entry, and then entry and timers stay as they are. */
  lemma InterestRefused(s: State, inFace: FaceId, interest: Interest, isDead: bool, hit: Option<Data>, word: string,
                        actions: seq<Action>, now: int)
    requires Inv(s) && inFace in s.faces
    ensures var r := OnIncomingInterest(s, inFace, interest, isDead, hit, word, actions, now);
      (!InScope(s, inFace, interest) ==> r == s.(received := s.received + [inFace])) &&
      (InScope(s, inFace, interest) && isDead ==> Refused(s, r, inFace, interest.name, interest.nonce)) &&
      (InScope(s, inFace, interest) && !isDead && NonceSeen(s, CutKey(interest), interest.nonce) ==>
        Refused(s, r, inFace, Q.Cut(interest.name), interest.nonce))
  {
    hide Inv, UnderPrefix, Q.Cut, Q.Contains, OnContentStoreHit, OnContentStoreMiss;
    assert s.sent + [] == s.sent;
  }

  /** An entry's in-records with the one of a face set. */
  ghost predicate RecordSet(before: seq<InRecord>, after: seq<InRecord>, r: InRecord) {
    forall x :: x in after <==> x == r || (x in before && x.face != r.face)
  }

  /** All is as before but one PIT entry, which is there. */
  ghost predicate OnlyEntry(before: State, after: State, k: Key) {
    k in after.pit && after.faces == before.faces && after.finalized == before.finalized &&
    after.dead == before.dead && after.cached == before.cached &&
    (forall m :: m != k ==> (m in after.pit <==> m in before.pit)) &&
    forall m :: m in before.pit && m != k ==> after.pit[m] == before.pit[m]
  }

  /** The entry is the old one, or a new one for the Interest without records. */
  ghost predicate SameOrNew(before: State, after: State, k: Key, interest: Interest)
    requires k in after.pit
  {
    if k in before.pit then
      after.nextId == before.nextId && after.pit[k].id == before.pit[k].id && after.pit[k].interest == before.pit[k].interest &&
      after.pit[k].outRecords == before.pit[k].outRecords
    else
      after.nextId == before.nextId + 1 && after.pit[k].id == before.nextId && after.pit[k].interest == interest &&
      after.pit[k].outRecords == []
  }

  function InRecordsOf(s: State, k: Key): seq<InRecord> {
    if k in s.pit then s.pit[k].inRecords else []
  }

  /** The unsatisfy timer is due when the last in-record expires, and no other timer is pending. */
  ghost predicate AwaitsLastExpiry(e: Entry) {
    e.stragglerTimer.None? && e.unsatisfyTimer.Some? &&
    (forall i :: 0 <= i < |e.inRecords| ==> e.inRecords[i].expiry <= e.unsatisfyTimer.value) &&
    exists i :: 0 <= i < |e.inRecords| && e.inRecords[i].expiry == e.unsatisfyTimer.value
  }

  /** The Interest as it is kept: under its cut name, with the other one put aside if it had a queried part. */
  predicate KeptAs(interest: Interest, kept: Interest) {
    kept.name == Q.Cut(interest.name) && kept.nonce == interest.nonce && kept.selectors == interest.selectors &&
    kept.lifetime == interest.lifetime && kept.mustBeFresh == interest.mustBeFresh && kept.nextHopFaceId == interest.nextHopFaceId &&
    kept.queriedName == (if Q.Contains(interest.name, Q.QUERIED) && interest.queriedName.None? then Some(interest.name)
                         else interest.queriedName)
  }

  /** An in-record for the face, with that Interest, and the timer set for it. */
  ghost predicate Pended(before: State, after: State, inFace: FaceId, interest: Interest, kept: Interest, now: int) {
    var k := CutKey(interest);
    KeptAs(interest, kept) && OnlyEntry(before, after, k) && SameOrNew(before, after, k, kept) &&
    after.received == before.received + [inFace] && after.sent == before.sent &&
    RecordSet(InRecordsOf(before, k), after.pit[k].inRecords,
              Record(inFace, interest.nonce, now, now + (if interest.lifetime < 0 then 4000 else interest.lifetime), kept)) &&
    AwaitsLastExpiry(after.pit[k])
  }

  /** The entry waits for stragglers with cached Data on its way to the face that asked. */
  ghost predicate Answered(before: State, after: State, inFace: FaceId, interest: Interest, kept: Interest, data: Data, now: int) {
    var k := CutKey(interest);
    KeptAs(interest, kept) && OnlyEntry(before, after, k) && SameOrNew(before, after, k, kept) &&
    after.received == before.received + [inFace] &&
    after.sent == before.sent + (if Reachable(before, inFace, data) then [SentData(inFace, data)] else []) &&
    after.pit[k].inRecords == [] && after.pit[k].unsatisfyTimer.None? &&
    after.pit[k].stragglerTimer == Some(Straggler(now + 100, true, data.freshness))
  }

  lemma InsertedEntry(s: State, inFace: FaceId, interest: Interest)
    requires EntriesOk(s) && IdsOk(s)
    ensures var kept := Arrived(interest);
      var r := InsertPit(s, kept);
      KeptAs(interest, kept) && KeyOf(kept) == CutKey(interest) && CutKey(interest) in r.pit &&
      OnlyEntry(s, r, CutKey(interest)) && SameOrNew(s, r, CutKey(interest), kept) &&
      r.received == s.received && r.sent == s.sent && r.pit[CutKey(interest)].inRecords == InRecordsOf(s, CutKey(interest)) &&
      (HasDuplicateNonce(r.pit[CutKey(interest)], interest.nonce) <==> NonceSeen(s, CutKey(interest), interest.nonce))
  {
    hide Q.Cut, Q.Contains, Shape, TimersOk;
  }

  lemma UpsertSets(records: seq<InRecord>, face: FaceId, interest: Interest, now: int)
    requires OnePerFace(records)
    ensures RecordSet(records, UpsertIn(records, face, interest, now),
                      Record(face, interest.nonce, now, now + (if interest.lifetime < 0 then 4000 else interest.lifetime), interest))
  {
    var r := UpsertIn(records, face, interest, now);
    var p := IndexOf(records, face);
    if p.Some? {
      assert forall i {:trigger records[i]} :: 0 <= i < |records| && i != p.value ==> r[i] == records[i];
      assert r[p.value] in r;
      forall x | x in records && x.face != face ensures x in r {
        var i :| 0 <= i < |records| && records[i] == x;
        assert r[i] == x;
      }
    }
  }

  /** The strategy acts, or the Interest goes to the next hop that it names. */
  ghost predicate SentOnward(mid: State, after: State, k: Key, nextHopFaceId: Option<FaceId>, word: string, actions: seq<Action>, now: int) {
    k in mid.pit &&
    match nextHopFaceId
    case None => after == PerformAll(mid, k, actions, now)
    case Some(nextHop) => after == if nextHop in mid.faces then OnOutgoingInterest(mid, k, nextHop, None, word, now) else mid
  }

  /** Data comes from the Content Store only where no in-record was there; otherwise the face has an
      in-record with this Interest before the strategy, or the next hop that it names, comes into play. */
  lemma InterestTaken(s: State, inFace: FaceId, interest: Interest, hit: Option<Data>, word: string, actions: seq<Action>, now: int)
    requires Inv(s) && inFace in s.faces && InScope(s, inFace, interest)
    requires !NonceSeen(s, CutKey(interest), interest.nonce)
    ensures var r, k := OnIncomingInterest(s, inFace, interest, false, hit, word, actions, now), CutKey(interest);
      if InRecordsOf(s, k) == [] && hit.Some? then Answered(s, r, inFace, interest, Arrived(interest), hit.value, now)
      else
        exists mid ::
          Pended(s, mid, inFace, interest, Arrived(interest), now) && SentOnward(mid, r, k, interest.nextHopFaceId, word, actions, now)
  {
    hide Q.Cut, Q.Contains, UnderPrefix, Shape, TimersOk, Arrived, InsertPit, HasDuplicateNonce, NonceSeen, PerformAll, OnOutgoingInterest,
      OnContentStoreHit, UpsertIn, OnlyEntry, SameOrNew, CutKey, Credit, OnePerFace, InRecordsOf, Pended, Answered, Inv, MaxExpiry;
    var s1 := s.(received := s.received + [inFace]);
    var kept, k := Arrived(interest), CutKey(interest);
    InsertedInto(s, inFace, interest);
    var s2 := InsertPit(s1, kept);
    var s3 := WithEntry(s2, k, Cancelled(s2.pit[k]));
    if InRecordsOf(s, k) == [] && hit.Some? {
      HitAnswers(s, s2, inFace, interest, hit.value, now);
    } else {
      var inRecords := UpsertIn(s3.pit[k].inRecords, inFace, kept, now);
      MissPends(s, s2, inFace, interest, now);
      var mid := WithEntry(s3, k, WithUnsatisfyTimer(s3.pit[k].(inRecords := inRecords)));
      assert OnIncomingInterest(s, inFace, interest, false, hit, word, actions, now) ==
        OnContentStoreMiss(s3, k, inFace, kept, word, actions, now);
      assert SentOnward(mid, OnContentStoreMiss(s3, k, inFace, kept, word, actions, now), k, kept.nextHopFaceId, word, actions, now);
    }
  }

  /** The PIT with an entry for the Interest that came in. */
  ghost predicate Entered(before: State, after: State, inFace: FaceId, interest: Interest, kept: Interest) {
    var k := CutKey(interest);
    KeptAs(interest, kept) && KeyOf(kept) == k && k in after.pit && OnlyEntry(before, after, k) && SameOrNew(before, after, k, kept) &&
    after.received == before.received + [inFace] && after.sent == before.sent &&
    after.pit[k].inRecords == InRecordsOf(before, k) && OnePerFace(after.pit[k].inRecords)
  }

  lemma InsertedInto(s: State, inFace: FaceId, interest: Interest)
    requires Inv(s)
    ensures var r := InsertPit(s.(received := s.received + [inFace]), Arrived(interest));
      Entered(s, r, inFace, interest, Arrived(interest)) &&
      (HasDuplicateNonce(r.pit[CutKey(interest)], interest.nonce) <==> NonceSeen(s, CutKey(interest), interest.nonce))
  {
    hide Q.Cut, Q.Contains, Arrived, InsertPit, HasDuplicateNonce, Credit, TimersOk;
    var s1 := s.(received := s.received + [inFace]);
    ReceivedOne(s, inFace);
    InsertedEntry(s1, inFace, interest);
    ArrivedOk(interest);
    InsertPitOk(s1, Arrived(interest));
  }

  lemma HitAnswers(s: State, entered: State, inFace: FaceId, interest: Interest, data: Data, now: int)
    requires Entered(s, entered, inFace, interest, Arrived(interest)) && InRecordsOf(s, CutKey(interest)) == []
    ensures var k := CutKey(interest);
      Answered(s, OnContentStoreHit(WithEntry(entered, k, Cancelled(entered.pit[k])), k, inFace, data, now), inFace, interest,
               Arrived(interest), data, now)
  {
    hide Q.Cut, Q.Contains, UnderPrefix, Arrived, KeptAs;
    assert s.sent + [] == s.sent;
  }

  lemma MissPends(s: State, entered: State, inFace: FaceId, interest: Interest, now: int)
    requires Entered(s, entered, inFace, interest, Arrived(interest))
    ensures var k := CutKey(interest);
      var e := Cancelled(entered.pit[k]);
      var inRecords := UpsertIn(e.inRecords, inFace, Arrived(interest), now);
      inRecords != [] &&
      Pended(s, WithEntry(WithEntry(entered, k, e), k, WithUnsatisfyTimer(e.(inRecords := inRecords))), inFace, interest, Arrived(interest), now)
  {
    hide Q.Cut, Q.Contains, Arrived, UpsertIn, MaxExpiry, RecordSet, OnePerFace;
    var records := entered.pit[CutKey(interest)].inRecords;
    UpsertInOk(records, inFace, Arrived(interest), now);
    UpsertSets(records, inFace, Arrived(interest), now);
  }

  // An Interest leaves

  /** The in-record of a face other than outFace that was renewed last, or of all if there is no other. */
  ghost predicate LastRenewed(records: seq<InRecord>, outFace: FaceId, r: InRecord) {
    r in records &&
    if exists i :: 0 <= i < |records| && records[i].face != outFace then
      r.face != outFace && forall i :: 0 <= i < |records| && records[i].face != outFace ==> records[i].lastRenewed <= r.lastRenewed
    else
      forall i :: 0 <= i < |records| ==> records[i].lastRenewed <= r.lastRenewed
  }

  lemma {:induction false} PickLast(records: seq<InRecord>, outFace: FaceId)
    requires records != []
    ensures LastRenewed(records, outFace, records[Pick(records, outFace)])
  {
    if |records| > 1 {
      var init := records[..|records| - 1];
      PickLast(init, outFace);
      assert forall i :: 0 <= i < |init| ==> init[i] == records[i];
      assert records == init + [records[|records| - 1]];
    }
  }

  /** /localhost stays on local faces; /localhop may leave them only for a local face that asks. */
  ghost predicate MayLeave(s: State, k: Key, outFace: FaceId)
    requires k in s.pit
  {
    outFace in s.faces &&
    (s.faces[outFace].local ||
     (!UnderPrefix(LOCALHOST, k.name) &&
      (UnderPrefix(LOCALHOP, k.name) ==>
        exists i :: 0 <= i < |s.pit[k].inRecords| && s.pit[k].inRecords[i].face in s.faces && s.faces[s.pit[k].inRecords[i].face].local)))
  }

  /** The out-records with the one of a face set; a mark on it stays. */
  ghost predicate OutRecordSet(before: seq<OutRecord>, after: seq<OutRecord>, face: FaceId, nonce: nat, expiry: int, now: int) {
    (forall x: OutRecord :: x.face != face ==> (x in after <==> x in before)) &&
    (exists x: OutRecord :: x in after && x.face == face) &&
    forall x: OutRecord :: x in after && x.face == face ==>
      x.nonce == nonce && x.lastRenewed == now && x.expiry == expiry &&
      (x.attached <==> exists o: OutRecord :: o in before && o.face == face && o.attached)
  }

  lemma UpsertOutSets(records: seq<OutRecord>, face: FaceId, nonce: nat, expiry: int, now: int)
    requires OnePerFace(records)
    ensures OutRecordSet(records, UpsertOut(records, face, nonce, expiry, now), face, nonce, expiry, now)
  {
    var r := UpsertOut(records, face, nonce, expiry, now);
    var p := IndexOf(records, face);
    if p.Some? {
      assert forall i {:trigger records[i]} :: 0 <= i < |records| && i != p.value ==> r[i] == records[i];
      assert r[p.value] in r && records[p.value] in records;
      forall x | x in records && x.face != face ensures x in r {
        var i :| 0 <= i < |records| && records[i] == x;
        assert r[i] == x;
      }
    } else {
      assert r[0] in r;
      assert forall i {:trigger records[i]} :: 0 <= i < |records| ==> r[i + 1] == records[i];
    }
  }

  /** An entry's records change, and nothing else of it. */
  predicate SameButRecords(before: Entry, after: Entry) {
    after == before.(inRecords := after.inRecords, outRecords := after.outRecords)
  }

  /** An Interest goes out if and only if its scope and some in-record let it; then as the one renewed last
      by another face, with its nonce or a new one, and the out-record says so. */
  lemma InterestLeaves(s: State, k: Key, outFace: FaceId, newNonce: Option<nat>, word: string, now: int)
    requires Inv(s) && k in s.pit
    ensures var r := OnOutgoingInterest(s, k, outFace, newNonce, word, now);
      if !MayLeave(s, k, outFace) || s.pit[k].inRecords == [] then r == s
      else
        exists picked :: LastRenewed(s.pit[k].inRecords, outFace, picked) &&
          Left(s, r, k, outFace, picked.attached, if newNonce.Some? then newNonce.value else picked.attached.nonce, newNonce.Some?, word, now)
  {
    hide Balanced, IdsOk, TimersOk, UnderPrefix, Q.OutgoingName, Q.Contains, UpsertOut, Pick, LastRenewed;
    assert Shape(s.faces, k, s.pit[k]);
    var r := OnOutgoingInterest(s, k, outFace, newNonce, word, now);
    if MayLeave(s, k, outFace) && s.pit[k].inRecords != [] {
      PickLast(s.pit[k].inRecords, outFace);
      var picked := s.pit[k].inRecords[Pick(s.pit[k].inRecords, outFace)];
      var nonce := if newNonce.Some? then newNonce.value else picked.attached.nonce;
      UpsertOutSets(s.pit[k].outRecords, outFace, nonce, Expiry(picked.attached, now), now);
      assert Left(s, r, k, outFace, picked.attached, nonce, newNonce.Some?, word, now);
    }
  }

  /** The packet sent and the out-record for it. */
  ghost predicate Left(before: State, after: State, k: Key, outFace: FaceId, picked: Interest, nonce: nat, isCopy: bool, word: string, now: int)
    requires k in before.pit
  {
    k in after.pit && after == before.(pit := before.pit[k := after.pit[k]], sent := after.sent) &&
    SameButRecords(before.pit[k], after.pit[k]) && after.pit[k].inRecords == before.pit[k].inRecords &&
    OutRecordSet(before.pit[k].outRecords, after.pit[k].outRecords, outFace, nonce,
                 now + (if picked.lifetime < 0 then 4000 else picked.lifetime), now) &&
    after.sent == before.sent + [SentInterest(outFace, if isCopy then k.name else Q.OutgoingName(k.name, picked.queriedName, word), nonce)]
  }

  // A Nack leaves

  /** A Nack goes out if and only if the face takes it and asked: with the Interest of its in-record, which
      goes. */
  lemma NackLeaves(s: State, k: Key, outFace: FaceId, reason: Reason)
    requires Inv(s) && k in s.pit
    ensures var r := OnOutgoingNack(s, k, outFace, reason);
      if !TakesNacks(s.faces, outFace) || !(exists i :: 0 <= i < |s.pit[k].inRecords| && s.pit[k].inRecords[i].face == outFace) then r == s
      else
        exists i :: 0 <= i < |s.pit[k].inRecords| && s.pit[k].inRecords[i].face == outFace &&
          NackSent(s, r, k, s.pit[k].inRecords[i], reason)
  {
    hide Balanced, IdsOk, TimersOk, Q.Contains, Delete;
    assert Shape(s.faces, k, s.pit[k]);
    var p := IndexOf(s.pit[k].inRecords, outFace);
    if TakesNacks(s.faces, outFace) && p.Some? {
      DeleteExactly(s.pit[k].inRecords, outFace);
      assert NackSent(s, OnOutgoingNack(s, k, outFace, reason), k, s.pit[k].inRecords[p.value], reason);
    }
  }

  ghost predicate NackSent(before: State, after: State, k: Key, r: InRecord, reason: Reason)
    requires k in before.pit
  {
    k in after.pit && after == before.(pit := before.pit[k := after.pit[k]], sent := after.sent) &&
    SameButRecords(before.pit[k], after.pit[k]) && after.pit[k].outRecords == before.pit[k].outRecords &&
    Without(before.pit[k].inRecords, after.pit[k].inRecords, r.face) &&
    after.sent == before.sent + [SentNack(r.face, k.name, r.attached.nonce, reason)]
  }

  /** Exactly the records of the other faces are left. */
  ghost predicate Without<T(!new)>(before: seq<Record<T>>, after: seq<Record<T>>, face: FaceId) {
    forall x :: x in after <==> x in before && x.face != face
  }

  lemma DeleteExactly<T(!new)>(records: seq<Record<T>>, face: FaceId)
    requires OnePerFace(records)
    ensures Without(records, Delete(records, face), face)
  {
    var r, p := Delete(records, face), IndexOf(records, face);
    if p.Some? {
      assert forall i {:trigger r[i]} :: 0 <= i < |r| ==> r[i] == records[if i < p.value then i else i + 1];
      forall x | x in records && x.face != face ensures x in r {
        var i :| 0 <= i < |records| && records[i] == x;
        assert r[if i < p.value then i else i - 1] == x;
      }
    }
  }

  // A Nack arrives

  /** The out-record of a face is marked; nothing else of the entry changes. */
  ghost predicate NackMarked(before: State, after: State, k: Key, face: FaceId)
    requires k in before.pit
  {
    k in after.pit && after == before.(pit := before.pit[k := after.pit[k]]) &&
    SameButRecords(before.pit[k], after.pit[k]) && after.pit[k].inRecords == before.pit[k].inRecords &&
    |after.pit[k].outRecords| == |before.pit[k].outRecords| &&
    forall i :: 0 <= i < |after.pit[k].outRecords| ==>
      after.pit[k].outRecords[i] ==
        if before.pit[k].outRecords[i].face == face then before.pit[k].outRecords[i].(attached := true) else before.pit[k].outRecords[i]
  }

  /** A Nack comes to the strategy if and only if its face takes Nacks and the entry has an out-record of that
      face with its nonce, and then with the record marked; any other Nack changes nothing. */
  lemma NackArrives(s: State, inFace: FaceId, nackInterest: Interest, actions: seq<Action>, now: int)
    requires Inv(s) && inFace in s.faces
    ensures var r, k := OnIncomingNack(s, inFace, nackInterest, actions, now), Key(nackInterest.name, nackInterest.selectors);
      if !s.faces[inFace].multiAccess && k in s.pit &&
        exists i :: 0 <= i < |s.pit[k].outRecords| && s.pit[k].outRecords[i].face == inFace && s.pit[k].outRecords[i].nonce == nackInterest.nonce
      then exists mid :: NackMarked(s, mid, k, inFace) && k in mid.pit && r == PerformAll(mid, k, actions, now)
      else r == s
  {
    hide Balanced, IdsOk, TimersOk, Q.Contains, PerformAll;
    var k := KeyOf(nackInterest);
    if k in s.pit {
      assert Shape(s.faces, k, s.pit[k]);
      var e, p := s.pit[k], IndexOf(s.pit[k].outRecords, inFace);
      if p.Some? {
        var mid := WithEntry(s, k, e.(outRecords := e.outRecords[p.value := e.outRecords[p.value].(attached := true)]));
        assert NackMarked(s, mid, k, inFace);
      }
    }
  }

  // Nonces that die

  /** Which nonces go on the Dead Nonce List: all of an unsatisfied entry's, or those of one upstream; and of a
      satisfied one only where fresh Data was asked for and the Data goes stale within the list's lifetime. */
  lemma DeadNoncesExactly(e: Entry, isSatisfied: bool, freshness: int, upstream: Option<FaceId>, x: (string, nat))
    requires OnePerFace(e.outRecords)
    ensures x in DeadNonces(e, isSatisfied, freshness, upstream) <==>
      x.0 == e.interest.name && (isSatisfied ==> e.interest.mustBeFresh && 0 <= freshness < 6000) &&
      exists i :: 0 <= i < |e.outRecords| && e.outRecords[i].nonce == x.1 && (upstream.Some? ==> e.outRecords[i].face == upstream.value)
  {
    var d := DeadNonces(e, isSatisfied, freshness, upstream);
    if i :| 0 <= i < |e.outRecords| && e.outRecords[i].nonce == x.1 && (upstream.Some? ==> e.outRecords[i].face == upstream.value) {
      if upstream.None? && x.0 == e.interest.name && d != [] {
        assert d[i] == x;
      }
    }
  }

  /** The entry goes, its id is used up, and its nonces are recorded, whatever else there is. */
  lemma Finalizes(s: State, k: Key, isSatisfied: bool, freshness: int)
    requires k in s.pit && Shape(s.faces, k, s.pit[k])
    ensures var r := OnInterestFinalize(s, k, isSatisfied, freshness);
      r.pit == s.pit - {k} && r.finalized == s.finalized + [s.pit[k].id] && r.sent == s.sent && r.received == s.received &&
      s.dead <= r.dead &&
      forall x :: x in r.dead[|s.dead|..] <==>
        x.0 == k.name && (isSatisfied ==> s.pit[k].interest.mustBeFresh && 0 <= freshness < 6000) &&
        exists i :: 0 <= i < |s.pit[k].outRecords| && s.pit[k].outRecords[i].nonce == x.1
  {
    hide Q.Contains, DeadNonces;
    var e := s.pit[k];
    var r := OnInterestFinalize(s, k, isSatisfied, freshness);
    assert r.dead[|s.dead|..] == DeadNonces(e, isSatisfied, freshness, None);
    forall x ensures x in r.dead[|s.dead|..] <==>
      x.0 == k.name && (isSatisfied ==> e.interest.mustBeFresh && 0 <= freshness < 6000) &&
      exists i :: 0 <= i < |e.outRecords| && e.outRecords[i].nonce == x.1
    {
      DeadNoncesExactly(e, isSatisfied, freshness, None, x);
    }
  }

  /** An entry whose unsatisfy timer fired goes once the strategy has acted, and all of its nonces are recorded. */
  lemma UnsatisfiedFinalizes(s: State, k: Key, actions: seq<Action>, now: int)
    requires Inv(s) && k in s.pit
    ensures var fired := WithEntry(s, k, s.pit[k].(unsatisfyTimer := None));
      var acted, r := PerformAll(fired, k, actions, now), OnInterestUnsatisfied(fired, k, actions, now);
      r.pit == acted.pit - {k} && r.finalized == s.finalized + [s.pit[k].id] && r.sent == acted.sent && s.dead <= r.dead &&
      forall x :: x in r.dead[|s.dead|..] <==>
        x.0 == k.name && exists i :: 0 <= i < |acted.pit[k].outRecords| && acted.pit[k].outRecords[i].nonce == x.1
  {
    hide Balanced, IdsOk, TimersOk, Shape, PerformAll, OnInterestFinalize, Credit, Has, NacksTo;
    var fired := WithEntry(s, k, s.pit[k].(unsatisfyTimer := None));
    FiredShape(s.faces, k, s.pit[k]);
    PerformAllOk(fired, k, actions, now);
    Finalizes(PerformAll(fired, k, actions, now), k, false, -1);
  }

  // Data arrives

  /** An entry that was satisfied: no in-record is left, nor the out-record of the upstream, and it waits
      for stragglers. */
  ghost predicate Settled(e: Entry, inFace: FaceId, freshness: int, now: int) {
    e.inRecords == [] && (forall i :: 0 <= i < |e.outRecords| ==> e.outRecords[i].face != inFace) &&
    e.unsatisfyTimer.None? && e.stragglerTimer == Some(Straggler(now + 100, true, freshness))
  }

  /** After what the strategy does, the entry is settled, the other upstreams' out-records stay, and the
      nonce of this one is recorded where fresh Data goes stale early. */
  lemma SatisfySettles(s: State, k: Key, inFace: FaceId, data: Data, actions: seq<Action>, now: int)
    requires k in s.pit && Shape(s.faces, k, s.pit[k])
    ensures var acted := PerformAll(WithEntry(s, k, Cancelled(s.pit[k])), k, actions, now);
      var r := Satisfy(s, k, inFace, data, actions, now);
      k in r.pit && r == acted.(pit := acted.pit[k := r.pit[k]], dead := r.dead) &&
      Settled(r.pit[k], inFace, data.freshness, now) && Without(acted.pit[k].outRecords, r.pit[k].outRecords, inFace) &&
      r.pit[k].id == s.pit[k].id && r.pit[k].interest == s.pit[k].interest &&
      acted.dead <= r.dead &&
      forall x :: x in r.dead[|acted.dead|..] <==>
        x.0 == k.name && s.pit[k].interest.mustBeFresh && 0 <= data.freshness < 6000 &&
        exists i :: 0 <= i < |acted.pit[k].outRecords| && acted.pit[k].outRecords[i].nonce == x.1 && acted.pit[k].outRecords[i].face == inFace
  {
    hide Q.Contains, DeadNonces, PerformAll, Delete, Credit, Has, NacksTo, TimersOk;
    var s0 := WithEntry(s, k, Cancelled(s.pit[k]));
    CancelledShape(s.faces, k, s.pit[k]);
    PerformAllOk(s0, k, actions, now);
    var acted := PerformAll(s0, k, actions, now);
    var e := acted.pit[k];
    DeleteExactly(e.outRecords, inFace);
    SatisfiedEntry(s.faces, k, e, inFace, data.freshness, now);
    var r := Satisfy(s, k, inFace, data, actions, now);
    assert r.dead[|acted.dead|..] == DeadNonces(e, true, data.freshness, Some(inFace));
    forall x ensures x in r.dead[|acted.dead|..] <==>
      x.0 == k.name && s.pit[k].interest.mustBeFresh && 0 <= data.freshness < 6000 &&
      exists i :: 0 <= i < |e.outRecords| && e.outRecords[i].nonce == x.1 && e.outRecords[i].face == inFace
    {
      DeadNoncesExactly(e, true, data.freshness, Some(inFace), x);
    }
  }

  lemma {:induction false} SatisfyAllSettles(s: State, matches: seq<Match>, inFace: FaceId, data: Data, now: int)
    requires Inv(s) && KeysIn(matches, s) && DistinctKeys(matches)
    ensures var r := SatisfyAll(s, matches, inFace, data, now).0;
      forall i :: 0 <= i < |matches| ==> matches[i].key in r.pit && Settled(r.pit[matches[i].key], inFace, data.freshness, now)
  {
    hide Inv, Satisfy, Pending, SatisfyAll, Settled, Credit, Survives, Shape, Without;
    if matches != [] {
      var n := |matches| - 1;
      var init := matches[..n];
      FirstMatches(s, matches);
      SatisfyAllSettles(s, init, inFace, data, now);
      SatisfyAllOk(s, init, inFace, data, now);
      SatisfyAllStep(s, matches, inFace, data, now);
      var s1, k := SatisfyAll(s, init, inFace, data, now).0, matches[n].key;
      SatisfyLast(s1, k, inFace, data, matches[n].actions, now);
      LastSettled(s1, k, inFace, data, matches[n].actions, now);
      assert forall i :: 0 <= i < n ==> init[i] == matches[i];
    }
  }

  lemma LastSettled(s: State, k: Key, inFace: FaceId, data: Data, actions: seq<Action>, now: int)
    requires Inv(s) && k in s.pit
    ensures var r := Satisfy(s, k, inFace, data, actions, now); k in r.pit && Settled(r.pit[k], inFace, data.freshness, now)
  {
    hide Inv, Satisfy, Settled, Without, PerformAll, Shape;
    InvShape(s, k);
    SatisfySettles(s, k, inFace, data, actions, now);
  }

  lemma InvShape(s: State, k: Key)
    requires Inv(s) && k in s.pit
    ensures Shape(s.faces, k, s.pit[k])
  {
  }

  /** Data out of scope changes nothing; unsolicited Data is cached if the policy admits it; other Data is
      cached and settles exactly the entries that it matches. */
  lemma DataSettles(s: State, inFace: FaceId, data: Data, matches: seq<Match>, admit: bool, now: int)
    requires Inv(s) && inFace in s.faces && KeysIn(matches, s) && DistinctKeys(matches)
    ensures var r, d := OnIncomingData(s, inFace, data, matches, admit, now), data.(name := Q.Cut(data.name));
      if !(s.faces[inFace].local || !UnderPrefix(LOCALHOST, data.name)) then r == s
      else if matches == [] then r == if admit then s.(cached := s.cached + [(d, true)]) else s
      else
        r.cached == s.cached + [(d, false)] && r.received == s.received && r.finalized == s.finalized &&
        r.pit.Keys == s.pit.Keys &&
        (forall i :: 0 <= i < |matches| ==> matches[i].key in r.pit && Settled(r.pit[matches[i].key], inFace, data.freshness, now)) &&
        OthersSame(s, r, matches)
  {
    hide Inv, SatisfyAll, SendAll, UnderPrefix, Settled, Q.Cut, KeysIn, DistinctKeys, OthersSame;
    if Admitted(s, inFace, data) && matches != [] {
      var d := Restored(data);
      var s0 := s.(cached := s.cached + [(d, false)]);
      CachedOk(s, (d, false));
      SameKeys(matches, s, s0);
      SatisfyAllSettles(s0, matches, inFace, d, now);
      SatisfyAllOk(s0, matches, inFace, d, now);
      SatisfyAllRest(s0, matches, inFace, d, now);
      var (s1, pending) := SatisfyAll(s0, matches, inFace, d, now);
      SendAllRest(s1, d, pending, inFace);
      var r := SendAll(s1, d, pending, inFace);
      OthersThrough(s, s0, s1, r, matches);
    }
  }

  lemma SameKeys(matches: seq<Match>, a: State, b: State)
    requires KeysIn(matches, a) && a.pit == b.pit
    ensures KeysIn(matches, b)
  {
  }

  lemma OthersThrough(s: State, s0: State, s1: State, r: State, matches: seq<Match>)
    requires s.pit == s0.pit && s1.pit == r.pit && OthersSame(s0, s1, matches)
    ensures OthersSame(s, r, matches)
  {
  }

  /** Neither the Content Store nor faces nor ids are touched. */
  ghost predicate RestSame(a: State, b: State) {
    b.cached == a.cached && b.received == a.received && b.finalized == a.finalized && b.faces == a.faces
  }

  lemma {:induction false} SatisfyAllRest(s: State, matches: seq<Match>, inFace: FaceId, data: Data, now: int)
    requires Inv(s) && KeysIn(matches, s) && DistinctKeys(matches)
    ensures RestSame(s, SatisfyAll(s, matches, inFace, data, now).0)
  {
    hide Inv, Satisfy, Pending, SatisfyAll, Shape, Settled, Without, PerformAll, Credit, Has, NacksTo;
    if matches == [] {
      SatisfyAllNone(s, inFace, data, now);
    } else {
      var n := |matches| - 1;
      FirstMatches(s, matches);
      SatisfyAllRest(s, matches[..n], inFace, data, now);
      SatisfyAllOk(s, matches[..n], inFace, data, now);
      SatisfyAllStep(s, matches, inFace, data, now);
      var s1, k := SatisfyAll(s, matches[..n], inFace, data, now).0, matches[n].key;
      InvShape(s1, k);
      CancelledShape(s1.faces, k, s1.pit[k]);
      PerformAllOk(WithEntry(s1, k, Cancelled(s1.pit[k])), k, matches[n].actions, now);
      SatisfySettles(s1, k, inFace, data, matches[n].actions, now);
    }
  }

  lemma {:induction false} SendAllRest(s: State, data: Data, faces: seq<FaceId>, inFace: FaceId)
    ensures var r := SendAll(s, data, faces, inFace); r == s.(sent := r.sent)
  {
    hide UnderPrefix;
    if faces != [] {
      SendAllRest(s, data, faces[..|faces| - 1], inFace);
    }
  }

  // A face goes

  /** Removing a face takes its own records out of every entry and leaves all others. */
  lemma FaceRemoved(s: State, face: FaceId)
    requires Inv(s)
    ensures var r := RemoveFace(s, face);
      r == s.(faces := s.faces - {face}, pit := r.pit) && r.pit.Keys == s.pit.Keys &&
      forall k :: k in s.pit ==>
        SameButRecords(s.pit[k], r.pit[k]) && Without(s.pit[k].inRecords, r.pit[k].inRecords, face) &&
        Without(s.pit[k].outRecords, r.pit[k].outRecords, face)
  {
    hide Balanced, IdsOk, TimersOk, Q.Contains, Delete, Without;
    var r := RemoveFace(s, face);
    assert r.pit.Keys == s.pit.Keys;
    forall k | k in s.pit
      ensures Without(s.pit[k].inRecords, r.pit[k].inRecords, face) && Without(s.pit[k].outRecords, r.pit[k].outRecords, face)
    {
      assert Shape(s.faces, k, s.pit[k]);
      DeleteExactly(s.pit[k].inRecords, face);
      DeleteExactly(s.pit[k].outRecords, face);
    }
  }

  /** One name is under another if and only if it is that one or goes on from it with a new component. */
  lemma UnderPrefixExactly(prefix: string, name: string)
    ensures UnderPrefix(prefix, name) <==> prefix == "/" || name == prefix || prefix + "/" <= name
  {
    if prefix + "/" <= name {
      assert name[..|prefix|] == (prefix + "/")[..|prefix|] == prefix && name[|prefix|] == (prefix + "/")[|prefix|];
    }
    if |name| > |prefix| && name[..|prefix|] == prefix && name[|prefix|] == '/' {
      assert name[..|prefix| + 1] == prefix + "/";
    }
  }
}
