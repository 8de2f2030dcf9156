/** Under which names Nacks travel (fw/forwarder.cpp): a query Interest leaves under a rewritten name and
    is cut where it arrives, and the Nack comes back under the cut name, which is that of the PIT entry
    it was sent from. */
module ForwarderNacks {
  import opened Common
  import opened Forwarder
  import opened ForwarderRuns
  import opened ForwarderResults
  import Q = QueryRewriting

  // What a strategy sends

  /** A Nack with the Interest of one of the in-records, on its face. */
  ghost predicate NackOf(x: Sent, records: seq<InRecord>) {
    x.SentNack? && exists i :: 0 <= i < |records| && RecordNacked(x, records[i])
  }

  predicate RecordNacked(x: Sent, r: InRecord)
    requires x.SentNack?
  {
    x.face == r.face && x.name == r.attached.name && x.nonce == r.attached.nonce
  }

  /** From one state to another an entry gets no in-records, and every Nack sent is of one it had. */
  ghost predicate Traced(a: State, b: State, k: Key) {
    k in a.pit && k in b.pit && a.sent <= b.sent &&
    (forall i :: 0 <= i < |b.pit[k].inRecords| ==> b.pit[k].inRecords[i] in a.pit[k].inRecords) &&
    forall i {:trigger b.sent[i]} :: |a.sent| <= i < |b.sent| && b.sent[i].SentNack? ==> NackOf(b.sent[i], a.pit[k].inRecords)
  }

  lemma PerformTraced(s: State, k: Key, a: Action, now: int)
    requires k in s.pit && Shape(s.faces, k, s.pit[k])
    ensures Traced(s, Perform(s, k, a, now), k)
  {
    hide ViolatesScope, HasPendingOutRecords, Q.OutgoingName, Q.Contains, Pick, UpsertOut, Expiry, Delete;
    var r := Perform(s, k, a, now);
    if a.SendNack? && r != s {
      var records := s.pit[k].inRecords;
      DeleteOk(records, a.face);
      assert RecordNacked(r.sent[|s.sent|], records[IndexOf(records, a.face).value]);
    }
  }

  lemma {:induction false} PerformAllTraced(s: State, k: Key, actions: seq<Action>, now: int)
    requires k in s.pit && Shape(s.faces, k, s.pit[k])
    ensures Traced(s, PerformAll(s, k, actions, now), k)
  {
    hide Shape, Perform, TimersOk, Credit, Has, NacksTo;
    if actions != [] {
      var n := |actions| - 1;
      var mid := PerformAll(s, k, actions[..n], now);
      PerformAllTraced(s, k, actions[..n], now);
      PerformAllOk(s, k, actions[..n], now);
      PerformTraced(mid, k, actions[n], now);
      TracedOn(s, mid, PerformAll(s, k, actions, now), k);
    }
  }

  lemma TracedOn(a: State, b: State, c: State, k: Key)
    requires Traced(a, b, k) && Traced(b, c, k)
    ensures Traced(a, c, k)
  {
    hide RecordNacked;
    forall i {:trigger c.sent[i]} | |a.sent| <= i < |c.sent| && c.sent[i].SentNack?
      ensures NackOf(c.sent[i], a.pit[k].inRecords)
    {
      if i < |b.sent| {
        assert c.sent[i] == b.sent[i];
      } else {
        FewerRecords(c.sent[i], b.pit[k].inRecords, a.pit[k].inRecords);
      }
    }
  }

  lemma FewerRecords(x: Sent, fewer: seq<InRecord>, records: seq<InRecord>)
    requires NackOf(x, fewer) && forall i :: 0 <= i < |fewer| ==> fewer[i] in records
    ensures NackOf(x, records)
  {
    hide RecordNacked;
    var i :| 0 <= i < |fewer| && RecordNacked(x, fewer[i]);
    var j :| 0 <= j < |records| && records[j] == fewer[i];
    assert RecordNacked(x, records[j]);
  }

  /** The Nacks of an entry in shape carry its name. */
  lemma NackName(x: Sent, faces: map<FaceId, Face>, k: Key, e: Entry)
    requires Shape(faces, k, e) && NackOf(x, e.inRecords)
    ensures x.name == k.name
  {
    hide Q.Contains;
    var i :| 0 <= i < |e.inRecords| && RecordNacked(x, e.inRecords[i]);
    assert KeyOf(e.inRecords[i].attached) == k;
  }

  // What the Interest pipeline sends

  /** The Nacks sent on the way carry a name, and the one to a face its nonce. */
  ghost predicate NacksNamed(a: State, b: State, name: string, face: FaceId, nonce: nat) {
    a.sent <= b.sent &&
    forall i {:trigger b.sent[i]} :: |a.sent| <= i < |b.sent| && b.sent[i].SentNack? ==>
      b.sent[i].name == name && (b.sent[i].face == face ==> b.sent[i].nonce == nonce)
  }

  /** In-records with the Interest of the face that asked. */
  ghost predicate AskedBy(records: seq<InRecord>, face: FaceId, interest: Interest) {
    forall i :: 0 <= i < |records| && records[i].face == face ==> records[i].attached == interest
  }

  lemma UpsertAsked(s: State, k: Key, inFace: FaceId, interest: Interest, now: int)
    requires k in s.pit && Shape(s.faces, k, s.pit[k]) && inFace in s.faces && KeyOf(interest) == k
    ensures var inRecords := UpsertIn(s.pit[k].inRecords, inFace, interest, now);
      inRecords != [] && AskedBy(inRecords, inFace, interest) &&
      Shape(s.faces, k, WithUnsatisfyTimer(s.pit[k].(inRecords := inRecords))) &&
      forall i :: 0 <= i < |inRecords| ==> inRecords[i] in s.pit[k].inRecords || inRecords[i].attached == interest
  {
    hide Q.Contains, Expiry, MaxExpiry;
    var before := s.pit[k].inRecords;
    UpsertInOk(before, inFace, interest, now);
    LiveSubset(s.faces, before, UpsertIn(before, inFace, interest, now));
    KeySubset(k, before, UpsertIn(before, inFace, interest, now));
    UpsertFirst(before, inFace, interest, now);
  }

  lemma UpsertFirst(records: seq<InRecord>, face: FaceId, interest: Interest, now: int)
    requires OnePerFace(records)
    ensures AskedBy(UpsertIn(records, face, interest, now), face, interest)
  {
    hide Expiry;
  }

  lemma MissNacks(s: State, k: Key, inFace: FaceId, interest: Interest, word: string, actions: seq<Action>, now: int)
    requires k in s.pit && Shape(s.faces, k, s.pit[k]) && inFace in s.faces && KeyOf(interest) == k
    ensures var inRecords, r := UpsertIn(s.pit[k].inRecords, inFace, interest, now), OnContentStoreMiss(s, k, inFace, interest, word, actions, now);
      inRecords != [] && Traced(WithEntry(s, k, WithUnsatisfyTimer(s.pit[k].(inRecords := inRecords))), r, k) &&
      Local(WithEntry(s, k, WithUnsatisfyTimer(s.pit[k].(inRecords := inRecords))), r, k) &&
      NacksNamed(s, r, k.name, inFace, interest.nonce)
  {
    hide UpsertIn, PerformAll, OnOutgoingInterest, Shape, AskedBy, Credit, Has, TimersOk, NacksTo;
    UpsertAsked(s, k, inFace, interest, now);
    var inRecords := UpsertIn(s.pit[k].inRecords, inFace, interest, now);
    var after := WithEntry(s, k, WithUnsatisfyTimer(s.pit[k].(inRecords := inRecords)));
    var r := OnContentStoreMiss(s, k, inFace, interest, word, actions, now);
    match interest.nextHopFaceId {
      case None =>
        PerformAllTraced(after, k, actions, now);
        PerformAllOk(after, k, actions, now);
      case Some(nextHop) =>
        if nextHop in s.faces {
          PerformTraced(after, k, SendInterest(nextHop, None, word), now);
          InterestOut(after, k, nextHop, None, word, now);
        } else {
          LocalSelf(after, k);
        }
    }
    TracedNames(after, r, k, inFace, interest);
  }

  lemma TracedNames(a: State, b: State, k: Key, face: FaceId, interest: Interest)
    requires Traced(a, b, k) && Shape(a.faces, k, a.pit[k]) && AskedBy(a.pit[k].inRecords, face, interest)
    ensures NacksNamed(a, b, k.name, face, interest.nonce)
  {
    hide Shape;
    forall i {:trigger b.sent[i]} | |a.sent| <= i < |b.sent| && b.sent[i].SentNack?
      ensures b.sent[i].name == k.name && (b.sent[i].face == face ==> b.sent[i].nonce == interest.nonce)
    {
      NackName(b.sent[i], a.faces, k, a.pit[k]);
    }
  }

  /** Every Nack that an arriving Interest leads to carries its cut name, and its nonce where it goes back;
      only an Interest refused by the Dead Nonce List is answered under the name it came with. */
  lemma NacksOfInterest(s: State, inFace: FaceId, interest: Interest, isDead: bool, hit: Option<Data>, word: string,
                        actions: seq<Action>, now: int)
    requires Inv(s) && inFace in s.faces
    ensures NacksNamed(s, OnIncomingInterest(s, inFace, interest, isDead, hit, word, actions, now),
                       if isDead then interest.name else Q.Cut(interest.name), inFace, interest.nonce)
  {
    hide Credit, Shape, TimersOk, OthersOk, EntriesOk, IdsOk, OnContentStoreMiss, OnContentStoreHit, InsertPit, UnderPrefix,
      HasDuplicateNonce, Q.Cut, Q.Contains;
    var s1 := s.(received := s.received + [inFace]);
    ReceivedOne(s, inFace);
    if !isDead && (s.faces[inFace].local || !UnderPrefix(LOCALHOST, interest.name)) {
      var i := Arrived(interest);
      ArrivedOk(interest);
      var k, s2 := KeyOf(i), InsertPit(s1, i);
      InsertPitOk(s1, i);
      InsertPitSends(s1, i);
      if !HasDuplicateNonce(s2.pit[k], i.nonce) {
        var s3 := WithEntry(s2, k, Cancelled(s2.pit[k]));
        CancelledShape(s2.faces, k, s2.pit[k]);
        if s3.pit[k].inRecords == [] && hit.Some? {
          HitSends(s3, k, inFace, hit.value, now);
        } else {
          MissNacks(s3, k, inFace, i, word, actions, now);
        }
      }
    }
  }

  lemma HitSends(s: State, k: Key, inFace: FaceId, data: Data, now: int)
    requires k in s.pit
    ensures var r := OnContentStoreHit(s, k, inFace, data, now).sent;
      s.sent <= r && forall i {:trigger r[i]} :: |s.sent| <= i < |r| ==> r[i].SentData?
  {
    hide UnderPrefix;
  }

  lemma InsertPitSends(s: State, interest: Interest)
    ensures InsertPit(s, interest).sent == s.sent
  {
  }

  // Which Nacks are accepted

  /** A Nack with the nonce just sent is accepted if and only if it has the name of the entry, or leads
      to another entry with the same nonce out on that face. */
  lemma NackAcceptedIff(s: State, k: Key, outFace: FaceId, newNonce: Option<nat>, word: string, now: int, nackInterest: Interest)
    requires Inv(s) && CanSend(s, k, outFace) && TakesNacks(s.faces, outFace)
    requires nackInterest.selectors == k.selectors
    requires var r := OnOutgoingInterest(s, k, outFace, newNonce, word, now);
      |r.sent| > |s.sent| ==> nackInterest.nonce == JustSent(s, r).nonce
    ensures var r := OnOutgoingInterest(s, k, outFace, newNonce, word, now);
      |r.sent| == |s.sent| + 1 && JustSent(s, r).SentInterest? &&
      (Accepts(r, outFace, nackInterest) <==> nackInterest.name == k.name || Accepts(s, outFace, nackInterest))
  {
    hide Balanced, IdsOk, TimersOk, ViolatesScope, Q.Contains, Pick, UpsertOut, IndexOf, Q.OutgoingName;
    var r := OnOutgoingInterest(s, k, outFace, newNonce, word, now);
    var picked := s.pit[k].inRecords[Pick(s.pit[k].inRecords, outFace)].attached;
    IndexAfterUpsert(s.pit[k].outRecords, outFace, nackInterest.nonce, Expiry(picked, now), now);
  }

  /** An Interest that was put under another name before has that name cut to its own. */
  predicate QueriedFor(queriedName: Option<string>, name: string) {
    queriedName.Some? ==> Q.Contains(queriedName.value, Q.QUERIED) && Q.Cut(queriedName.value) == name
  }

  ghost predicate QueriedOk(name: string, records: seq<InRecord>) {
    forall i :: 0 <= i < |records| ==> QueriedFor(records[i].attached.queriedName, name)
  }

  /** No Nack was sent and no nonce recorded under a queried name, and the queried names kept with
      Interests are for their names. */
  ghost predicate Tidy(s: State) {
    (forall i {:trigger s.sent[i]} :: 0 <= i < |s.sent| && s.sent[i].SentNack? ==> !Q.Contains(s.sent[i].name, Q.QUERIED)) &&
    (forall i {:trigger s.dead[i]} :: 0 <= i < |s.dead| ==> !Q.Contains(s.dead[i].0, Q.QUERIED)) &&
    forall k :: k in s.pit ==> QueriedOk(k.name, s.pit[k].inRecords)
  }

  /** The Interest that a neighbour receives when one is sent. */
  predicate Carries(interest: Interest, x: Sent, selectors: nat) {
    x.SentInterest? && interest.name == x.name && interest.nonce == x.nonce && interest.selectors == selectors
  }

  /** Whatever name an Interest leaves with, cutting it gives that of its entry. */
  lemma SentNameCut(s: State, k: Key, outFace: FaceId, newNonce: Option<nat>, word: string, now: int)
    requires Inv(s) && CanSend(s, k, outFace) && QueriedOk(k.name, s.pit[k].inRecords)
    ensures var r := OnOutgoingInterest(s, k, outFace, newNonce, word, now);
      |r.sent| == |s.sent| + 1 && JustSent(s, r).SentInterest? && Q.Cut(JustSent(s, r).name) == k.name
  {
    hide Balanced, IdsOk, TimersOk, ViolatesScope, Q.Contains, Q.Cut, Pick, UpsertOut;
    var i := Pick(s.pit[k].inRecords, outFace);
    var picked := s.pit[k].inRecords[i].attached;
    assert Shape(s.faces, k, s.pit[k]) && KeyOf(picked) == k && QueriedFor(picked.queriedName, k.name);
    NotQueriedCut(k.name);
    if Q.Contains(k.name, Q.QUERY) && picked.queriedName.None? {
      Q.RewriteRoundTrip(k.name, word, "");
      var name := Q.OutgoingName(k.name, None, word);
      assert name + "" == name;
    }
  }

  lemma NotQueriedCut(name: string)
    requires !Q.Contains(name, Q.QUERIED)
    ensures Q.Cut(name) == name
  {
  }

  /** A peer that gives the Interest back as it was sent, not cutting names: its Nack is accepted if and only
      if the Interest was a copy with a new nonce or its name is no query name. */
  lemma EchoedNackAccepted(s: State, k: Key, outFace: FaceId, newNonce: Option<nat>, word: string, now: int, nackInterest: Interest)
    requires Inv(s) && CanSend(s, k, outFace) && TakesNacks(s.faces, outFace) && QueriedOk(k.name, s.pit[k].inRecords)
    requires var r := OnOutgoingInterest(s, k, outFace, newNonce, word, now);
      |r.sent| > |s.sent| ==> Carries(nackInterest, JustSent(s, r), k.selectors)
    ensures var r := OnOutgoingInterest(s, k, outFace, newNonce, word, now);
      (Accepts(r, outFace, nackInterest) <==> newNonce.Some? || !Q.Contains(k.name, Q.QUERY)) &&
      (Accepts(r, outFace, nackInterest) ==> KeyOf(nackInterest) == k)
  {
    hide Balanced, IdsOk, TimersOk, ViolatesScope, Q.Contains, Q.Cut, Pick, UpsertOut, Accepts;
    var picked := s.pit[k].inRecords[Pick(s.pit[k].inRecords, outFace)].attached;
    assert Shape(s.faces, k, s.pit[k]) && KeyOf(picked) == k;
    NackAcceptedIff(s, k, outFace, newNonce, word, now, nackInterest);
    if newNonce.None? && Q.Contains(k.name, Q.QUERY) {
      SentQueried(s, k, outFace, word, now);
      QueriedNackDropped(s, outFace, nackInterest);
    }
  }

  /** A Nack that a neighbour with these pipelines sends at once for the Interest it received. */
  ghost predicate NackedBy(nackInterest: Interest, peer: State, inFace: FaceId, interest: Interest, isDead: bool, hit: Option<Data>,
                           word: string, actions: seq<Action>, now: int)
    requires inFace in peer.faces
  {
    var answered := OnIncomingInterest(peer, inFace, interest, isDead, hit, word, actions, now).sent;
    nackInterest.selectors == interest.selectors &&
    exists i :: |peer.sent| <= i < |answered| && NackUnder(answered[i], inFace, nackInterest)
  }

  predicate NackUnder(x: Sent, face: FaceId, nackInterest: Interest) {
    x.SentNack? && x.face == face && x.name == nackInterest.name && x.nonce == nackInterest.nonce
  }

  /** A neighbour's Nack is accepted if and only if the Interest was not a query Interest, or had a new
      nonce, or its Dead Nonce List did not stop it under the name it came with. */
  lemma NeighboursNackAccepted(s: State, k: Key, outFace: FaceId, newNonce: Option<nat>, word: string, now: int,
                               peer: State, inFace: FaceId, interest: Interest, isDead: bool, hit: Option<Data>, peerWord: string,
                               actions: seq<Action>, peerNow: int, nackInterest: Interest)
    requires Inv(s) && CanSend(s, k, outFace) && TakesNacks(s.faces, outFace) && QueriedOk(k.name, s.pit[k].inRecords)
    requires var r := OnOutgoingInterest(s, k, outFace, newNonce, word, now);
      |r.sent| > |s.sent| ==> Carries(interest, JustSent(s, r), k.selectors)
    requires Inv(peer) && inFace in peer.faces
    requires NackedBy(nackInterest, peer, inFace, interest, isDead, hit, peerWord, actions, peerNow)
    ensures Accepts(OnOutgoingInterest(s, k, outFace, newNonce, word, now), outFace, nackInterest) <==>
      !isDead || newNonce.Some? || !Q.Contains(k.name, Q.QUERY)
  {
    hide Inv, OnIncomingInterest, OnOutgoingInterest, Accepts, ViolatesScope, QueriedOk, Q.Cut, Q.Contains;
    SentNameCut(s, k, outFace, newNonce, word, now);
    NacksOfInterest(peer, inFace, interest, isDead, hit, peerWord, actions, peerNow);
    if isDead {
      EchoedNackAccepted(s, k, outFace, newNonce, word, now, nackInterest);
    } else {
      NackAcceptedIff(s, k, outFace, newNonce, word, now, nackInterest);
    }
  }

  /** So where that list finds only what was recorded, every Nack of a neighbour is accepted. */
  lemma NoNeighboursNackLost(s: State, k: Key, outFace: FaceId, newNonce: Option<nat>, word: string, now: int,
                             peer: State, inFace: FaceId, interest: Interest, isDead: bool, hit: Option<Data>, peerWord: string,
                             actions: seq<Action>, peerNow: int, nackInterest: Interest)
    requires Inv(s) && Tidy(s) && CanSend(s, k, outFace) && TakesNacks(s.faces, outFace)
    requires var r := OnOutgoingInterest(s, k, outFace, newNonce, word, now);
      |r.sent| > |s.sent| ==> Carries(interest, JustSent(s, r), k.selectors)
    requires Inv(peer) && Tidy(peer) && inFace in peer.faces && (isDead ==> (interest.name, interest.nonce) in peer.dead)
    requires NackedBy(nackInterest, peer, inFace, interest, isDead, hit, peerWord, actions, peerNow)
    ensures Accepts(OnOutgoingInterest(s, k, outFace, newNonce, word, now), outFace, nackInterest)
  {
    hide Inv, OnIncomingInterest, Accepts, ViolatesScope, QueriedOk, Q.Cut, Q.Contains, NackedBy;
    NeighboursNackAccepted(s, k, outFace, newNonce, word, now, peer, inFace, interest, isDead, hit, peerWord, actions, peerNow, nackInterest);
    if isDead && newNonce.None? && Q.Contains(k.name, Q.QUERY) {
      SentQueried(s, k, outFace, word, now);
      assert false;
    }
  }

  lemma SentQueried(s: State, k: Key, outFace: FaceId, word: string, now: int)
    requires Inv(s) && CanSend(s, k, outFace) && QueriedOk(k.name, s.pit[k].inRecords) && Q.Contains(k.name, Q.QUERY)
    ensures var r := OnOutgoingInterest(s, k, outFace, None, word, now);
      |r.sent| == |s.sent| + 1 && JustSent(s, r).SentInterest? && Q.Contains(JustSent(s, r).name, Q.QUERIED)
  {
    hide Balanced, IdsOk, TimersOk, ViolatesScope, Q.Contains, Q.Cut, Pick, UpsertOut;
    var picked := s.pit[k].inRecords[Pick(s.pit[k].inRecords, outFace)].attached;
    assert Shape(s.faces, k, s.pit[k]) && KeyOf(picked) == k && QueriedFor(picked.queriedName, k.name);
    if picked.queriedName.None? {
      Q.NextHopForwardsSameName(k.name, word, word);
    }
  }

  lemma QueryNameNotQueried()
    ensures Q.Contains("/query/a", Q.QUERY) && !Q.Contains("/query/a", Q.QUERIED)
    ensures "/query/a" + Q.QUERIED + "/" + "b" == "/query/a/queried/b" && Q.Cut("/query/a/queried/b") == "/query/a"
    ensures Q.Contains("/query/a/queried/b", Q.QUERIED)
    ensures !UnderPrefix(LOCALHOST, "/query/a") && !UnderPrefix(LOCALHOP, "/query/a") && !UnderPrefix(LOCALHOST, "/query/a/queried/b")
  {
    assert "/query/a"[0..6] == Q.QUERY && Q.OccursAt("/query/a", Q.QUERY, 0);
    assert "/query/a"[0..8][5] == 'y' && Q.QUERIED[5] == 'i';
    assert "/query/a" + Q.QUERIED + "/" + "b" == "/query/a/queried/b";
    assert "/query/a" + Q.QUERIED + "/b" == "/query/a/queried/b";
    Q.CutRewritten("/query/a", "/b");
    assert "/query/a/queried/b"[8..16] == Q.QUERIED && Q.OccursAt("/query/a/queried/b", Q.QUERIED, 8);
    assert |"/localhost"| == 10 && "/query/a/queried/b"[..10][1] == 'q';
  }

  /** A query Interest on its way, and a neighbour whose strategy sends a Nack at once: it comes back under
      the name of the entry, and is accepted. */
  lemma NeighbourNacks()
    ensures Forwarded("/query/a", "b").sent == [SentInterest(2, "/query/a/queried/b", 7)]
    ensures OnIncomingInterest(NOTHING_PENDING, 1, Ask("/query/a/queried/b"), false, None, "", [SendNack(1, NoRoute)], 0).sent ==
      [SentNack(1, "/query/a", 7, NoRoute)]
    ensures Accepts(Forwarded("/query/a", "b"), 2, Ask("/query/a"))
  {
    hide Q.Contains, Q.Cut, UnderPrefix, Inv;
    QueryNameNotQueried();
    var interest := Ask("/query/a/queried/b");
    var i := Ask("/query/a").(queriedName := Some("/query/a/queried/b"));
    assert Arrived(interest) == i;
    var k, s1 := KeyOf(i), NOTHING_PENDING.(received := [1]);
    assert NOTHING_PENDING.received + [1] == [1];
    var e := Entry(0, i, [], [], None, None);
    var s3 := s1.(pit := map[k := e], nextId := 1);
    assert InsertPit(s1, i) == s3 && !HasDuplicateNonce(e, 7) && WithEntry(s3, k, Cancelled(e)) == s3;
    MissNacked(s3, i);
  }

  lemma MissNacked(s: State, i: Interest)
    requires i.nextHopFaceId.None? && s == NOTHING_PENDING.(received := [1], pit := map[KeyOf(i) := Entry(0, i, [], [], None, None)], nextId := 1)
    ensures OnContentStoreMiss(s, KeyOf(i), 1, i, "", [SendNack(1, NoRoute)], 0).sent == [SentNack(1, i.name, i.nonce, NoRoute)]
  {
    var k, actions := KeyOf(i), [SendNack(1, NoRoute)];
    var ins := UpsertIn([], 1, i, 0);
    assert ins == [Record(1, i.nonce, 0, Expiry(i, 0), i)] && IndexOf(ins, 1) == Some(0);
    var after := WithEntry(s, k, WithUnsatisfyTimer(s.pit[k].(inRecords := ins)));
    assert actions[..0] == [] && PerformAll(after, k, [], 0) == after;
    assert PerformAll(after, k, actions, 0) == OnOutgoingNack(after, k, 1, NoRoute);
  }

  /** A peer that gives the Interest back as it came: its Nack is dropped, whatever the strategy would do. */
  lemma EchoedNackLost(actions: seq<Action>, now: int)
    ensures var r, nacked := Forwarded("/query/a", "b"), Ask("/query/a").(name := "/query/a/queried/b");
      r.sent == [SentInterest(2, nacked.name, nacked.nonce)] && OnIncomingNack(r, 2, nacked, actions, now) == r
  {
    hide Inv, OnIncomingNack, Accepts, Q.Contains, Q.Cut, UnderPrefix;
    QueryNameNotQueried();
    ForwardedReached("/query/a", "b");
    var nacked := Ask("/query/a").(name := "/query/a/queried/b");
    QueriedNackDropped(Forwarded("/query/a", "b"), 2, nacked);
    NackDroppedOrMarked(Forwarded("/query/a", "b"), 2, nacked, actions, now);
  }

  // Runs

  /** The Dead Nonce List finds only what was recorded, and an Interest that arrives with a queried name
      put aside has that of its own name. */
  ghost predicate Genuine(s: State, t: Timed) {
    t.step.InterestArrives? ==>
      QueriedFor(t.step.interest.queriedName, Q.Cut(t.step.interest.name)) &&
      (t.step.isDead ==> (t.step.interest.name, t.step.interest.nonce) in s.dead)
  }

  ghost predicate AllGenuine(steps: seq<Timed>, selects: (nat, Data) -> bool) {
    steps == [] ||
    var init := steps[..|steps| - 1];
    AllGenuine(init, selects) && Genuine(Run(init, selects), steps[|steps| - 1])
  }

  /** What an entry in shape does by itself leaves everything tidy. */
  lemma TracedTidy(a: State, b: State, k: Key)
    requires Tidy(a) && k in a.pit && Shape(a.faces, k, a.pit[k]) && Local(a, b, k) && Traced(a, b, k)
    ensures Tidy(b)
  {
    hide Q.Contains, QueriedFor, NackOf;
    forall i {:trigger b.sent[i]} | 0 <= i < |b.sent| && b.sent[i].SentNack? ensures !Q.Contains(b.sent[i].name, Q.QUERIED) {
      if i < |a.sent| {
        assert b.sent[i] == a.sent[i];
      } else {
        NackName(b.sent[i], a.faces, k, a.pit[k]);
      }
    }
  }

  lemma PerformAllTidy(s: State, k: Key, actions: seq<Action>, now: int)
    requires Tidy(s) && k in s.pit && Shape(s.faces, k, s.pit[k])
    ensures Tidy(PerformAll(s, k, actions, now))
  {
    hide Tidy, Shape, Local, Traced, PerformAll, Credit, Has;
    PerformAllOk(s, k, actions, now);
    PerformAllTraced(s, k, actions, now);
    TracedTidy(s, PerformAll(s, k, actions, now), k);
  }

  lemma DeadNoncesTidy(faces: map<FaceId, Face>, k: Key, e: Entry, isSatisfied: bool, freshness: int, upstream: Option<FaceId>)
    requires Shape(faces, k, e)
    ensures var d := DeadNonces(e, isSatisfied, freshness, upstream);
      forall i {:trigger d[i]} :: 0 <= i < |d| ==> !Q.Contains(d[i].0, Q.QUERIED)
  {
    hide Q.Contains, IndexOf;
  }

  /** Setting fewer records of an entry, and recording nonces, leaves everything tidy. */
  lemma SetTidy(s: State, k: Key, e: Entry, dead: seq<(string, nat)>)
    requires Tidy(s) && k in s.pit && forall i :: 0 <= i < |e.inRecords| ==> e.inRecords[i] in s.pit[k].inRecords
    requires forall i {:trigger dead[i]} :: 0 <= i < |dead| ==> !Q.Contains(dead[i].0, Q.QUERIED)
    ensures Tidy(WithEntry(s, k, e).(dead := s.dead + dead))
  {
    hide Q.Contains, QueriedFor;
  }

  lemma FinalizeTidy(s: State, k: Key, isSatisfied: bool, freshness: int)
    requires Tidy(s) && k in s.pit && Shape(s.faces, k, s.pit[k])
    ensures Tidy(OnInterestFinalize(s, k, isSatisfied, freshness))
  {
    hide Q.Contains, QueriedOk, DeadNonces, Shape;
    DeadNoncesTidy(s.faces, k, s.pit[k], isSatisfied, freshness, None);
  }

  lemma SatisfyTidy(s: State, k: Key, inFace: FaceId, data: Data, actions: seq<Action>, now: int)
    requires Inv(s) && Tidy(s) && k in s.pit
    ensures Tidy(Satisfy(s, k, inFace, data, actions, now))
  {
    hide Tidy, Shape, TimersOk, Balanced, IdsOk, PerformAll, DeadNonces, Credit, Has, NacksTo, Delete;
    EntryOf(s, k);
    var s0 := WithEntry(s, k, Cancelled(s.pit[k]));
    CancelledShape(s.faces, k, s.pit[k]);
    SetTidy(s, k, Cancelled(s.pit[k]), []);
    assert s0 == s0.(dead := s.dead + []);
    PerformAllTidy(s0, k, actions, now);
    PerformAllOk(s0, k, actions, now);
    var s1 := PerformAll(s0, k, actions, now);
    DeadNoncesTidy(s1.faces, k, s1.pit[k], true, data.freshness, Some(inFace));
    var e := WithStragglerTimer(s1.pit[k].(inRecords := [], outRecords := Delete(s1.pit[k].outRecords, inFace)),
                                true, data.freshness, now);
    SetTidy(s1, k, e, DeadNonces(s1.pit[k], true, data.freshness, Some(inFace)));
  }

  lemma {:induction false} SatisfyAllTidy(s: State, matches: seq<Match>, inFace: FaceId, data: Data, now: int)
    requires Inv(s) && Tidy(s) && KeysIn(matches, s) && DistinctKeys(matches)
    ensures Tidy(SatisfyAll(s, matches, inFace, data, now).0)
  {
    hide Inv, Tidy, Satisfy, Pending, SatisfyAll, KeysIn, DistinctKeys;
    if matches == [] {
      SatisfyAllNone(s, inFace, data, now);
    } else {
      var n := |matches| - 1;
      FirstMatches(s, matches);
      SatisfyAllTidy(s, matches[..n], inFace, data, now);
      SatisfyAllOk(s, matches[..n], inFace, data, now);
      SatisfyAllStep(s, matches, inFace, data, now);
      SatisfyTidy(SatisfyAll(s, matches[..n], inFace, data, now).0, matches[n].key, inFace, data, matches[n].actions, now);
    }
  }

  lemma DataOutTidy(s: State, data: Data, outFace: FaceId)
    requires Tidy(s)
    ensures Tidy(OnOutgoingData(s, data, outFace))
  {
    hide UnderPrefix, Q.Contains, QueriedOk;
  }

  lemma {:induction false} SendAllTidy(s: State, data: Data, faces: seq<FaceId>, inFace: FaceId)
    requires Tidy(s)
    ensures Tidy(SendAll(s, data, faces, inFace))
  {
    hide Tidy, OnOutgoingData;
    if faces != [] {
      var n := |faces| - 1;
      SendAllTidy(s, data, faces[..n], inFace);
      DataOutTidy(SendAll(s, data, faces[..n], inFace), data, faces[n]);
    }
  }

  lemma DataTidy(s: State, inFace: FaceId, data: Data, matches: seq<Match>, admit: bool, now: int)
    requires Inv(s) && Tidy(s) && inFace in s.faces && KeysIn(matches, s) && DistinctKeys(matches)
    ensures Tidy(OnIncomingData(s, inFace, data, matches, admit, now))
  {
    hide Inv, SatisfyAll, SendAll, UnderPrefix, Restored, Q.Contains, QueriedOk, KeysIn, DistinctKeys;
    if Admitted(s, inFace, data) && matches != [] {
      var d := Restored(data);
      var s0 := s.(cached := s.cached + [(d, false)]);
      CachedOk(s, (d, false));
      assert KeysIn(matches, s0) by { KeysOf(matches, s, s0); }
      SatisfyAllTidy(s0, matches, inFace, d, now);
      var (s1, pending) := SatisfyAll(s0, matches, inFace, d, now);
      SendAllTidy(s1, d, pending, inFace);
    }
  }

  lemma KeysOf(matches: seq<Match>, a: State, b: State)
    requires KeysIn(matches, a) && a.pit == b.pit
    ensures KeysIn(matches, b)
  {
  }

  lemma NackTidy(s: State, inFace: FaceId, nackInterest: Interest, actions: seq<Action>, now: int)
    requires Inv(s) && Tidy(s) && inFace in s.faces
    ensures Tidy(OnIncomingNack(s, inFace, nackInterest, actions, now))
  {
    hide Tidy, Shape, TimersOk, Balanced, IdsOk, PerformAll;
    var k := KeyOf(nackInterest);
    if Accepts(s, inFace, nackInterest) {
      var e := s.pit[k];
      var i := IndexOf(e.outRecords, inFace).value;
      var e1 := e.(outRecords := e.outRecords[i := e.outRecords[i].(attached := true)]);
      EntryOf(s, k);
      NackedEntry(s.faces, k, e, i);
      SetTidy(s, k, e1, []);
      var s1 := WithEntry(s, k, e1);
      assert s1 == s1.(dead := s.dead + []);
      PerformAllTidy(s1, k, actions, now);
    }
  }

  lemma UnsatisfiedTidy(s: State, k: Key, actions: seq<Action>, now: int)
    requires Inv(s) && Tidy(s) && k in s.pit
    ensures Tidy(OnInterestUnsatisfied(WithEntry(s, k, s.pit[k].(unsatisfyTimer := None)), k, actions, now))
  {
    hide Tidy, Shape, TimersOk, Balanced, IdsOk, PerformAll, OnInterestFinalize, Credit, Has, NacksTo;
    var e := s.pit[k].(unsatisfyTimer := None);
    var s1 := WithEntry(s, k, e);
    EntryOf(s, k);
    FiredShape(s.faces, k, s.pit[k]);
    SetTidy(s, k, e, []);
    assert s1 == s1.(dead := s.dead + []);
    PerformAllTidy(s1, k, actions, now);
    PerformAllOk(s1, k, actions, now);
    FinalizeTidy(PerformAll(s1, k, actions, now), k, false, -1);
  }

  lemma RemoveFaceTidy(s: State, face: FaceId)
    requires Inv(s) && Tidy(s)
    ensures Tidy(RemoveFace(s, face))
  {
    hide Q.Contains, QueriedFor, Balanced, IdsOk, TimersOk, Delete;
    forall k | k in s.pit ensures QueriedOk(k.name, Delete(s.pit[k].inRecords, face)) {
      assert Shape(s.faces, k, s.pit[k]);
      DeleteOk(s.pit[k].inRecords, face);
    }
  }

  lemma LoopTidy(s: State, inFace: FaceId, interest: Interest)
    requires Tidy(s) && inFace in s.faces && !Q.Contains(interest.name, Q.QUERIED)
    ensures Tidy(OnInterestLoop(s, inFace, interest))
  {
    hide Q.Contains, QueriedOk;
  }

  lemma ArrivedQueried(interest: Interest)
    requires QueriedFor(interest.queriedName, Q.Cut(interest.name))
    ensures QueriedFor(Arrived(interest).queriedName, Arrived(interest).name)
  {
  }

  /** The PIT entry of an Interest that has arrived, with its timers cancelled. */
  lemma InsertTidy(s: State, interest: Interest)
    requires Tidy(s)
    ensures var k, r := KeyOf(interest), InsertPit(s, interest);
      k in r.pit && Tidy(r) && Tidy(WithEntry(r, k, Cancelled(r.pit[k])))
  {
    hide Q.Contains, QueriedFor;
  }

  /** An in-record for an Interest that has arrived. */
  lemma InRecordTidy(s: State, k: Key, inFace: FaceId, interest: Interest, now: int)
    requires Tidy(s) && k in s.pit && Shape(s.faces, k, s.pit[k]) && inFace in s.faces && KeyOf(interest) == k
    requires QueriedFor(interest.queriedName, interest.name)
    ensures var inRecords := UpsertIn(s.pit[k].inRecords, inFace, interest, now);
      inRecords != [] && Tidy(WithEntry(s, k, WithUnsatisfyTimer(s.pit[k].(inRecords := inRecords))))
  {
    hide Q.Contains, QueriedFor, UpsertIn, Shape, MaxExpiry;
    UpsertAsked(s, k, inFace, interest, now);
    var before, inRecords := s.pit[k].inRecords, UpsertIn(s.pit[k].inRecords, inFace, interest, now);
    forall i | 0 <= i < |inRecords| ensures QueriedFor(inRecords[i].attached.queriedName, k.name) {
      if inRecords[i].attached != interest {
        var j :| 0 <= j < |before| && before[j] == inRecords[i];
        assert QueriedFor(before[j].attached.queriedName, k.name);
      }
    }
  }

  lemma MissTidy(s: State, k: Key, inFace: FaceId, interest: Interest, word: string, actions: seq<Action>, now: int)
    requires Tidy(s) && k in s.pit && Shape(s.faces, k, s.pit[k]) && inFace in s.faces && KeyOf(interest) == k
    requires QueriedFor(interest.queriedName, interest.name)
    ensures Tidy(OnContentStoreMiss(s, k, inFace, interest, word, actions, now))
  {
    hide Tidy, Shape, Local, Traced, OnContentStoreMiss, UpsertIn, QueriedFor, NacksNamed;
    InRecordTidy(s, k, inFace, interest, now);
    UpsertAsked(s, k, inFace, interest, now);
    MissNacks(s, k, inFace, interest, word, actions, now);
    var after := WithEntry(s, k, WithUnsatisfyTimer(s.pit[k].(inRecords := UpsertIn(s.pit[k].inRecords, inFace, interest, now))));
    TracedTidy(after, OnContentStoreMiss(s, k, inFace, interest, word, actions, now), k);
  }

  lemma HitTidy(s: State, k: Key, inFace: FaceId, data: Data, now: int)
    requires Tidy(s) && k in s.pit
    ensures Tidy(OnContentStoreHit(s, k, inFace, data, now))
  {
    hide Tidy, OnOutgoingData;
    var e := WithStragglerTimer(s.pit[k], true, data.freshness, now);
    SetTidy(s, k, e, []);
    assert WithEntry(s, k, e) == WithEntry(s, k, e).(dead := s.dead + []);
    DataOutTidy(WithEntry(s, k, e), data, inFace);
  }

  lemma InterestTidy(s: State, inFace: FaceId, interest: Interest, isDead: bool, hit: Option<Data>, word: string,
                     actions: seq<Action>, now: int)
    requires Inv(s) && Tidy(s) && inFace in s.faces
    requires QueriedFor(interest.queriedName, Q.Cut(interest.name)) && (isDead ==> (interest.name, interest.nonce) in s.dead)
    ensures Tidy(OnIncomingInterest(s, inFace, interest, isDead, hit, word, actions, now))
  {
    hide Tidy, Shape, Inv, OthersOk, EntriesOk, IdsOk, Credit, Arrived, OnInterestLoop, OnContentStoreHit, OnContentStoreMiss, InsertPit, UnderPrefix,
      HasDuplicateNonce, QueriedFor, Q.Contains;
    var s1 := s.(received := s.received + [inFace]);
    assert Tidy(s1) && (isDead ==> !Q.Contains(interest.name, Q.QUERIED)) by { ReceivedTidy(s, s1, interest, isDead); }
    ReceivedOne(s, inFace);
    if isDead {
      LoopTidy(s1, inFace, interest);
    } else {
      var i := Arrived(interest);
      ArrivedOk(interest);
      ArrivedQueried(interest);
      var k, s2 := KeyOf(i), InsertPit(s1, i);
      InsertTidy(s1, i);
      InsertPitOk(s1, i);
      LoopTidy(s2, inFace, i);
      var s3 := WithEntry(s2, k, Cancelled(s2.pit[k]));
      CancelledShape(s2.faces, k, s2.pit[k]);
      if s3.pit[k].inRecords == [] && hit.Some? {
        HitTidy(s3, k, inFace, hit.value, now);
      } else {
        MissTidy(s3, k, inFace, i, word, actions, now);
      }
    }
  }

  lemma ReceivedTidy(s: State, r: State, interest: Interest, isDead: bool)
    requires Tidy(s) && r == s.(received := r.received) && (isDead ==> (interest.name, interest.nonce) in s.dead)
    ensures Tidy(r) && (isDead ==> !Q.Contains(interest.name, Q.QUERIED))
  {
    hide Q.Contains, QueriedOk;
  }

  lemma TidyStep(s: State, t: Timed, selects: (nat, Data) -> bool)
    requires Inv(s) && Tidy(s) && Possible(s, t, selects) && Genuine(s, t)
    ensures Tidy(Apply(s, t, selects))
  {
    hide Inv, Tidy, OnIncomingInterest, OnIncomingData, OnIncomingNack, OnInterestUnsatisfied, OnInterestFinalize, PerformAll, RemoveFace,
      NoneOverdrawn, QueriedFor;
    match t.step {
      case FaceAdded(face, properties) => FaceTidy(s, face, properties);
      case InterestArrives(inFace, interest, isDead, hit, word, actions) =>
        InterestTidy(s, inFace, interest, isDead, hit, word, actions, t.now);
      case DataArrives(inFace, data, matches, admit) => DataTidy(s, inFace, data, matches, admit, t.now);
      case NackArrives(inFace, nackInterest, actions) => NackTidy(s, inFace, nackInterest, actions, t.now);
      case UnsatisfyTimerFires(k, actions) => UnsatisfiedTidy(s, k, actions, t.now);
      case StragglerTimerFires(k) =>
        ShapeOf(s, k);
        FinalizeTidy(s, k, s.pit[k].stragglerTimer.value.isSatisfied, s.pit[k].stragglerTimer.value.freshness);
      case StrategyTimerFires(k, actions) =>
        ShapeOf(s, k);
        PerformAllTidy(s, k, actions, t.now);
      case FaceRemoved(face) => RemoveFaceTidy(s, face);
    }
  }

  lemma ShapeOf(s: State, k: Key)
    requires Inv(s) && k in s.pit
    ensures Shape(s.faces, k, s.pit[k])
  {
  }

  lemma FaceTidy(s: State, face: FaceId, properties: Face)
    requires Tidy(s)
    ensures Tidy(s.(faces := s.faces[face := properties]))
  {
  }

  /** Over every genuine run no Nack goes out under a queried name, none is recorded in the Dead Nonce
      List, and every Interest kept has a queried name of its own, if any. */
  lemma {:induction false} NamesTidy(steps: seq<Timed>, selects: (nat, Data) -> bool)
    requires AllGenuine(steps, selects)
    ensures Tidy(Run(steps, selects))
  {
    hide Inv, Possible, Apply, Genuine;
    if steps != [] {
      var init, last := steps[..|steps| - 1], steps[|steps| - 1];
      RunOk(init, selects);
      NamesTidy(init, selects);
      if Possible(Run(init, selects), last, selects) {
        TidyStep(Run(init, selects), last, selects);
      }
    }
  }
}
