/** The forwarder as an object that its pipelines update in place (fw/forwarder.cpp): every entry
    point takes the step that module Forwarder describes and keeps flow balance, timers and ids. */
module ForwarderPipelines {
  import opened Common
  import opened F = Forwarder
  import R = ForwarderRuns
  import Q = QueryRewriting

  /** Where a nonce is found among an entry's records. */
  datatype DuplicateNonceWhere = DuplicateNonceWhere(inSame: bool, inOther: bool, outSame: bool, outOther: bool)

  const DUPLICATE_NONCE_NONE: DuplicateNonceWhere := DuplicateNonceWhere(false, false, false, false)

  ghost predicate FoundIn<T(!new)>(records: seq<Record<T>>, nonce: nat, face: FaceId, same: bool) {
    exists i :: 0 <= i < |records| && records[i].nonce == nonce && (records[i].face == face <==> same)
  }

  method FindAmong<T>(records: seq<Record<T>>, nonce: nat, face: FaceId) returns (same: bool, other: bool)
    ensures same <==> exists i :: 0 <= i < |records| && records[i].nonce == nonce && records[i].face == face
    ensures other <==> exists i :: 0 <= i < |records| && records[i].nonce == nonce && records[i].face != face
  {
    same, other := false, false;
    for i := 0 to |records|
      invariant same <==> exists j :: 0 <= j < i && records[j].nonce == nonce && records[j].face == face
      invariant other <==> exists j :: 0 <= j < i && records[j].nonce == nonce && records[j].face != face
    {
      if records[i].nonce == nonce {
        if records[i].face == face {
          same := true;
        } else {
          other := true;
        }
      }
    }
  }

  /** fw::findDuplicateNonce. */
  method FindDuplicateNonce(e: Entry, nonce: nat, face: FaceId) returns (dnw: DuplicateNonceWhere)
    ensures dnw.inSame <==> FoundIn(e.inRecords, nonce, face, true)
    ensures dnw.inOther <==> FoundIn(e.inRecords, nonce, face, false)
    ensures dnw.outSame <==> FoundIn(e.outRecords, nonce, face, true)
    ensures dnw.outOther <==> FoundIn(e.outRecords, nonce, face, false)
    ensures dnw != DUPLICATE_NONCE_NONE <==> HasDuplicateNonce(e, nonce)
  {
    var inSame, inOther := FindAmong(e.inRecords, nonce, face);
    var outSame, outOther := FindAmong(e.outRecords, nonce, face);
    return DuplicateNonceWhere(inSame, inOther, outSame, outOther);
  }

  /** std::max_element over the in-records, for the Interest to send. */
  method PickInRecord(records: seq<InRecord>, outFace: FaceId) returns (best: nat)
    requires records != []
    ensures best == Pick(records, outFace)
    ensures forall i :: 0 <= i < |records| ==> !Less(records[best], records[i], outFace)
  {
    best := 0;
    var i := 1;
    assert records[..1][..1] == records[..1];
    while i < |records|
      invariant 1 <= i <= |records| && best < i && best == Pick(records[..i], outFace)
      invariant forall j :: 0 <= j < i ==> !Less(records[best], records[j], outFace)
    {
      assert records[..i + 1][..i] == records[..i];
      if Less(records[best], records[i], outFace) {
        best := i;
      }
      i := i + 1;
    }
    assert records[..i] == records;
  }

  method LastExpiry(records: seq<InRecord>) returns (r: int)
    requires records != []
    ensures r == MaxExpiry(records)
  {
    r := records[0].expiry;
    var i := 1;
    while i < |records|
      invariant 1 <= i <= |records| && r == MaxExpiry(records[..i])
    {
      assert records[..i + 1][..i] == records[..i];
      if r < records[i].expiry {
        r := records[i].expiry;
      }
      i := i + 1;
    }
    assert records[..i] == records;
  }

  class Forwarder {
    var faces: map<FaceId, Face>
    var pit: map<Key, Entry>
    var nextId: nat
    var finalized: seq<nat>
    var received: seq<FaceId>
    var sent: seq<Sent>
    var deadNonces: seq<(string, nat)>
    var cached: seq<(Data, bool)>

    ghost function Now(): State
      reads this
    {
      State(faces, pit, nextId, finalized, received, sent, deadNonces, cached)
    }

    /** Flow balance on every face, every entry in shape with exactly one timer, ids used once. */
    ghost predicate Valid()
      reads this
    {
      R.Inv(Now())
    }

    constructor ()
      ensures Valid() && Now() == R.START
    {
      faces, pit, nextId, finalized := map[], map[], 0, [];
      received, sent, deadNonces, cached := [], [], [], [];
      new;
      R.StartOk();
    }

    method AddFace(face: FaceId, properties: Face)
      requires Valid() && face !in faces
      modifies this`faces
      ensures Valid() && faces == old(faces)[face := properties]
    {
      R.FaceAddedOk(Now(), face, properties);
      faces := faces[face := properties];
    }

    method CancelUnsatisfyAndStragglerTimer(k: Key)
      requires k in pit
      modifies this`pit
      ensures Now() == WithEntry(old(Now()), k, Cancelled(old(pit)[k]))
    {
      pit := pit[k := pit[k].(unsatisfyTimer := None, stragglerTimer := None)];
    }

    method SetUnsatisfyTimer(k: Key)
      requires k in pit && pit[k].inRecords != []
      modifies this`pit
      ensures Now() == WithEntry(old(Now()), k, WithUnsatisfyTimer(old(pit)[k]))
    {
      var lastExpiry := LastExpiry(pit[k].inRecords);
      pit := pit[k := pit[k].(unsatisfyTimer := Some(lastExpiry))];
    }

    method SetStragglerTimer(k: Key, isSatisfied: bool, freshness: int, now: int)
      requires k in pit
      modifies this`pit
      ensures Now() == WithEntry(old(Now()), k, WithStragglerTimer(old(pit)[k], isSatisfied, freshness, now))
    {
      pit := pit[k := pit[k].(stragglerTimer := Some(Straggler(now + STRAGGLER_TIME, isSatisfied, freshness)))];
    }

    method IncomingInterest(inFace: FaceId, interest: Interest, isDead: bool, hit: Option<Data>, word: string,
                            actions: seq<Action>, now: int)
      requires Valid() && inFace in faces
      modifies this
      ensures Valid() && Now() == OnIncomingInterest(old(Now()), inFace, interest, isDead, hit, word, actions, now)
    {
      hide Q.Contains, UnderPrefix, OnInterestLoop, OnContentStoreHit, OnContentStoreMiss, HasDuplicateNonce, R.Inv;
      R.IncomingInterestOk(Now(), inFace, interest, isDead, hit, word, actions, now);
      received := received + [inFace];
      if !faces[inFace].local && UnderPrefix(LOCALHOST, interest.name) {
        return;
      }
      if isDead {
        InterestLoop(inFace, interest);
        return;
      }

      var i := Arrived(interest);
      var k := KeyOf(i);
      if k !in pit {
        pit, nextId := pit[k := Entry(nextId, i, [], [], None, None)], nextId + 1;
      }
      var dnw := FindDuplicateNonce(pit[k], i.nonce, inFace);
      if dnw != DUPLICATE_NONCE_NONE {
        InterestLoop(inFace, i);
        return;
      }

      CancelUnsatisfyAndStragglerTimer(k);
      if pit[k].inRecords == [] && hit.Some? {
        ContentStoreHit(k, inFace, hit.value, now);
      } else {
        ContentStoreMiss(k, inFace, i, word, actions, now);
      }
    }

    method InterestLoop(inFace: FaceId, interest: Interest)
      requires inFace in faces
      modifies this`sent
      ensures Now() == OnInterestLoop(old(Now()), inFace, interest)
    {
      if faces[inFace].multiAccess {
        return;
      }
      sent := sent + [SentNack(inFace, interest.name, interest.nonce, Duplicate)];
    }

    method ContentStoreMiss(k: Key, inFace: FaceId, interest: Interest, word: string, actions: seq<Action>, now: int)
      requires k in pit
      modifies this`pit, this`sent
      ensures Now() == OnContentStoreMiss(old(Now()), k, inFace, interest, word, actions, now)
    {
      hide UpsertIn, OnOutgoingInterest, PerformAll;
      Inserted(pit[k].inRecords, inFace, interest, now);
      pit := pit[k := pit[k].(inRecords := UpsertIn(pit[k].inRecords, inFace, interest, now))];
      SetUnsatisfyTimer(k);
      assert Now() == WithEntry(old(Now()), k, WithUnsatisfyTimer(
        old(pit)[k].(inRecords := UpsertIn(old(pit)[k].inRecords, inFace, interest, now))));
      if interest.nextHopFaceId.Some? {
        if interest.nextHopFaceId.value in faces {
          OutgoingInterest(k, interest.nextHopFaceId.value, None, word, now);
        }
        return;
      }
      Dispatch(k, actions, now);
    }

    method ContentStoreHit(k: Key, inFace: FaceId, data: Data, now: int)
      requires k in pit
      modifies this`pit, this`sent
      ensures Now() == OnContentStoreHit(old(Now()), k, inFace, data, now)
    {
      hide OnOutgoingData;
      SetStragglerTimer(k, true, data.freshness, now);
      OutgoingData(data, inFace);
    }

    /** A trigger of the strategy. */
    method Dispatch(k: Key, actions: seq<Action>, now: int)
      requires k in pit
      modifies this`pit, this`sent
      ensures k in pit && Now() == PerformAll(old(Now()), k, actions, now)
    {
      hide Perform;
      var i := 0;
      assert actions[..0] == [];
      while i < |actions|
        invariant 0 <= i <= |actions| && k in pit && Now() == PerformAll(old(Now()), k, actions[..i], now)
      {
        assert actions[..i + 1][..i] == actions[..i];
        Act(k, actions[i], now);
        i := i + 1;
      }
      assert actions[..i] == actions;
    }

    /** A timer of the strategy, for an entry that it still knows. */
    method StrategyTimer(k: Key, actions: seq<Action>, now: int)
      requires Valid() && k in pit
      modifies this`pit, this`sent
      ensures Valid() && Now() == PerformAll(old(Now()), k, actions, now)
    {
      R.StrategyTimerOk(Now(), k, actions, now);
      Dispatch(k, actions, now);
    }

    method Act(k: Key, a: Action, now: int)
      requires k in pit
      modifies this`pit, this`sent
      ensures k in pit && Now() == Perform(old(Now()), k, a, now)
    {
      hide OnOutgoingInterest, OnInterestReject, OnOutgoingNack;
      match a {
        case SendInterest(outFace, newNonce, word) => OutgoingInterest(k, outFace, newNonce, word, now);
        case RejectInterest => InterestReject(k, now);
        case SendNack(face, reason) => OutgoingNack(k, face, reason);
      }
    }

    method OutgoingInterest(k: Key, outFace: FaceId, newNonce: Option<nat>, word: string, now: int)
      requires k in pit
      modifies this`pit, this`sent
      ensures k in pit && Now() == OnOutgoingInterest(old(Now()), k, outFace, newNonce, word, now)
    {
      hide ViolatesScope, Q.OutgoingName, UpsertOut, Pick;
      if outFace !in faces {
        return;
      }
      var violates := Violates(k, faces[outFace]);
      if violates || pit[k].inRecords == [] {
        return;
      }
      var best := PickInRecord(pit[k].inRecords, outFace);
      var picked := pit[k].inRecords[best].attached;
      var nonce := if newNonce.Some? then newNonce.value else picked.nonce;
      pit := pit[k := pit[k].(outRecords := UpsertOut(pit[k].outRecords, outFace, nonce, Expiry(picked, now), now))];
      var name := if newNonce.Some? then picked.name else Q.OutgoingName(picked.name, picked.queriedName, word);
      sent := sent + [SentInterest(outFace, name, nonce)];
    }

    /** fw::violatesScope. */
    method Violates(k: Key, outFace: Face) returns (r: bool)
      requires k in pit
      ensures r == ViolatesScope(Now(), pit[k], outFace)
    {
      if outFace.local {
        return false;
      }
      if UnderPrefix(LOCALHOST, pit[k].interest.name) {
        return true;
      }
      if !UnderPrefix(LOCALHOP, pit[k].interest.name) {
        return false;
      }
      var records := pit[k].inRecords;
      for i := 0 to |records|
        invariant forall j :: 0 <= j < i && records[j].face in faces ==> !faces[records[j].face].local
      {
        if records[i].face in faces && faces[records[i].face].local {
          return false;
        }
      }
      return true;
    }

    method InterestReject(k: Key, now: int)
      requires k in pit
      modifies this`pit
      ensures k in pit && Now() == OnInterestReject(old(Now()), k, now)
    {
      if HasPendingOutRecords(pit[k], now) {
        return;
      }
      CancelUnsatisfyAndStragglerTimer(k);
      SetStragglerTimer(k, false, -1, now);
    }

    method OutgoingNack(k: Key, outFace: FaceId, reason: Reason)
      requires k in pit
      modifies this`pit, this`sent
      ensures k in pit && Now() == OnOutgoingNack(old(Now()), k, outFace, reason)
    {
      hide Delete;
      if outFace !in faces {
        return;
      }
      var inRecord := IndexOf(pit[k].inRecords, outFace);
      if inRecord.None? || faces[outFace].multiAccess {
        return;
      }
      var interest := pit[k].inRecords[inRecord.value].attached;
      pit := pit[k := pit[k].(inRecords := Delete(pit[k].inRecords, outFace))];
      sent := sent + [SentNack(outFace, interest.name, interest.nonce, reason)];
    }

    /** The unsatisfy timer of an entry fires. */
    method InterestUnsatisfied(k: Key, actions: seq<Action>, now: int)
      requires Valid() && k in pit && pit[k].unsatisfyTimer.Some?
      modifies this
      ensures Valid() && Now() == OnInterestUnsatisfied(WithEntry(old(Now()), k, old(pit)[k].(unsatisfyTimer := None)), k, actions, now)
    {
      hide PerformAll, OnInterestFinalize, R.Inv, R.OthersOk, R.IdsOk, R.Balanced;
      R.UnsatisfiedOk(Now(), k, actions, now);
      R.UnsatisfiedReady(Now(), k, actions, now);
      pit := pit[k := pit[k].(unsatisfyTimer := None)];
      Dispatch(k, actions, now);
      InterestFinalize(k, false, -1);
    }

    /** The straggler timer fires, or the entry is given up: all but this entry must be in order. */
    method InterestFinalize(k: Key, isSatisfied: bool, freshness: int)
      requires k in pit && R.OthersOk(Now(), k) && R.IdsOk(Now()) && R.Balanced(Now())
      modifies this
      ensures Valid() && Now() == OnInterestFinalize(old(Now()), k, isSatisfied, freshness)
    {
      hide DeadNonces, R.Inv, R.OthersOk, R.IdsOk, R.Balanced;
      R.FinalizeOk(Now(), k, isSatisfied, freshness);
      InsertDeadNonceList(pit[k], isSatisfied, freshness, None);
      finalized := finalized + [pit[k].id];
      pit := pit - {k};
    }

    method InsertDeadNonceList(e: Entry, isSatisfied: bool, freshness: int, upstream: Option<FaceId>)
      modifies this`deadNonces
      ensures deadNonces == old(deadNonces) + DeadNonces(e, isSatisfied, freshness, upstream)
    {
      var needDnl := if isSatisfied then e.interest.mustBeFresh && 0 <= freshness < DEAD_NONCE_LIFETIME else true;
      if !needDnl {
        assert deadNonces + [] == deadNonces;
        return;
      }
      if upstream.None? {
        var added: seq<(string, nat)> := [];
        for i := 0 to |e.outRecords|
          invariant |added| == i && forall j :: 0 <= j < i ==> added[j] == (e.interest.name, e.outRecords[j].nonce)
          invariant deadNonces == old(deadNonces) + added
        {
          deadNonces := deadNonces + [(e.interest.name, e.outRecords[i].nonce)];
          added := added + [(e.interest.name, e.outRecords[i].nonce)];
        }
        assert added == DeadNonces(e, isSatisfied, freshness, upstream);
      } else {
        var outRecord := IndexOf(e.outRecords, upstream.value);
        if outRecord.Some? {
          deadNonces := deadNonces + [(e.interest.name, e.outRecords[outRecord.value].nonce)];
        } else {
          assert deadNonces + [] == deadNonces;
        }
      }
    }

    method IncomingData(inFace: FaceId, data: Data, matches: seq<Match>, admit: bool, now: int)
      requires Valid() && inFace in faces && KeysIn(matches, Now()) && R.DistinctKeys(matches)
      requires R.NoneOverdrawn(Now(), inFace, Restored(data), matches, now)
      modifies this
      ensures Valid() && Now() == OnIncomingData(old(Now()), inFace, data, matches, admit, now)
    {
      hide UnderPrefix, Restored, Satisfy, Pending, SendAll, R.Inv, R.NoneOverdrawn, R.DistinctKeys;
      R.IncomingDataOk(Now(), inFace, data, matches, admit, now);
      if !faces[inFace].local && UnderPrefix(LOCALHOST, data.name) {
        return;
      }
      var d := Restored(data);
      if matches == [] {
        if admit {
          cached := cached + [(d, true)];
        }
        return;
      }

      cached := cached + [(d, false)];
      ghost var start := Now();
      var pendingDownstreams: seq<FaceId> := [];
      var i := 0;
      assert matches[..0] == [];
      while i < |matches|
        invariant 0 <= i <= |matches| && pit.Keys == old(pit).Keys && KeysIn(matches[..i], start)
        invariant SatisfyAll(start, matches[..i], inFace, d, now) == (Now(), pendingDownstreams)
      {
        ghost var before := Now();
        assert matches[..i + 1][..i] == matches[..i];
        pendingDownstreams := Remember(pit[matches[i].key].inRecords, pendingDownstreams, now);
        SatisfyEntry(matches[i].key, inFace, d, matches[i].actions, now);
        assert SatisfyAll(start, matches[..i + 1], inFace, d, now) == (Now(), pendingDownstreams);
        i := i + 1;
      }
      assert matches[..i] == matches;
      SendToPending(d, pendingDownstreams, inFace);
    }

    method SatisfyEntry(k: Key, inFace: FaceId, d: Data, actions: seq<Action>, now: int)
      requires k in pit
      modifies this`pit, this`sent, this`deadNonces
      ensures pit.Keys == old(pit).Keys && Now() == Satisfy(old(Now()), k, inFace, d, actions, now)
    {
      hide PerformAll, DeadNonces, Delete;
      CancelUnsatisfyAndStragglerTimer(k);
      PerformAllKeys(Now(), k, actions, now);
      Dispatch(k, actions, now);
      ghost var s1 := Now();
      InsertDeadNonceList(pit[k], true, d.freshness, Some(inFace));
      pit := pit[k := pit[k].(inRecords := [], outRecords := Delete(pit[k].outRecords, inFace))];
      ghost var emptied := pit[k];
      SetStragglerTimer(k, true, d.freshness, now);
      assert pit == s1.pit[k := WithStragglerTimer(emptied, true, d.freshness, now)];
    }

    method SendToPending(d: Data, pendingDownstreams: seq<FaceId>, inFace: FaceId)
      modifies this`sent
      ensures Now() == SendAll(old(Now()), d, pendingDownstreams, inFace)
    {
      hide OnOutgoingData;
      var i := 0;
      assert pendingDownstreams[..0] == [];
      while i < |pendingDownstreams|
        invariant 0 <= i <= |pendingDownstreams| && Now() == SendAll(old(Now()), d, pendingDownstreams[..i], inFace)
      {
        assert pendingDownstreams[..i + 1][..i] == pendingDownstreams[..i];
        if pendingDownstreams[i] != inFace {
          OutgoingData(d, pendingDownstreams[i]);
        }
        i := i + 1;
      }
      assert pendingDownstreams[..i] == pendingDownstreams;
    }

    method OutgoingData(data: Data, outFace: FaceId)
      modifies this`sent
      ensures Now() == OnOutgoingData(old(Now()), data, outFace)
    {
      if outFace !in faces {
        return;
      }
      if !faces[outFace].local && UnderPrefix(LOCALHOST, data.name) {
        return;
      }
      sent := sent + [SentData(outFace, data)];
    }

    method IncomingNack(inFace: FaceId, nackInterest: Interest, actions: seq<Action>, now: int)
      requires Valid() && inFace in faces
      modifies this`pit, this`sent
      ensures Valid() && Now() == OnIncomingNack(old(Now()), inFace, nackInterest, actions, now)
    {
      hide PerformAll, R.Inv;
      R.IncomingNackOk(Now(), inFace, nackInterest, actions, now);
      if faces[inFace].multiAccess {
        return;
      }
      var k := KeyOf(nackInterest);
      if k !in pit {
        return;
      }
      var outRecord := IndexOf(pit[k].outRecords, inFace);
      if outRecord.None? || nackInterest.nonce != pit[k].outRecords[outRecord.value].nonce {
        return;
      }
      var nacked := pit[k].outRecords[outRecord.value].(attached := true);
      pit := pit[k := pit[k].(outRecords := pit[k].outRecords[outRecord.value := nacked])];
      Dispatch(k, actions, now);
    }

    /** A face goes. */
    method FaceGone(face: FaceId)
      requires Valid()
      modifies this`pit, this`faces
      ensures Valid() && Now() == RemoveFace(old(Now()), face)
    {
      hide R.Inv, RemoveFace;
      DeleteInOutRecords(face);
      R.RemoveFaceOk(old(Now()), face);
    }

    /** One pass over the PIT, in any order. */
    method DeleteInOutRecords(face: FaceId)
      modifies this`pit, this`faces
      ensures Now() == RemoveFace(old(Now()), face)
    {
      hide Delete;
      ghost var before := pit;
      var todo := pit.Keys;
      while todo != {}
        invariant todo <= before.Keys && pit.Keys == before.Keys && faces == old(faces)
        invariant forall k :: k in before ==> pit[k] == if k in todo then before[k] else
          before[k].(inRecords := Delete(before[k].inRecords, face), outRecords := Delete(before[k].outRecords, face))
        decreases |todo|
      {
        var k :| k in todo;
        pit := pit[k := pit[k].(inRecords := Delete(pit[k].inRecords, face), outRecords := Delete(pit[k].outRecords, face))];
        todo := todo - {k};
      }
      faces := faces - {face};
    }
  }

  lemma Inserted(records: seq<InRecord>, face: FaceId, interest: Interest, now: int)
    ensures UpsertIn(records, face, interest, now) != []
  {
  }

  method Remember(records: seq<InRecord>, known: seq<FaceId>, now: int) returns (pending: seq<FaceId>)
    ensures pending == Pending(records, known, now)
  {
    pending := known;
    var i := 0;
    while i < |records|
      invariant 0 <= i <= |records| && Pending(records[i..], pending, now) == Pending(records, known, now)
    {
      assert records[i..][1..] == records[i + 1..];
      if records[i].expiry > now && records[i].face !in pending {
        pending := pending + [records[i].face];
      }
      i := i + 1;
    }
  }
}
