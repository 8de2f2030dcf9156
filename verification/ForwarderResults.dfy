/** Where packets go: who gets incoming Data, which Nacks find their entry again, and where the
    pipelines fall short of what is said of them. */
module ForwarderResults {
  import opened Common
  import opened Forwarder
  import opened ForwarderRuns
  import Q = QueryRewriting

  // Data goes to exactly the pending downstreams

  /** How often a piece of Data was sent to a face. */
  function Copies(s: State, f: FaceId, d: Data): nat {
    multiset(s.sent)[SentData(f, d)]
  }

  lemma PerformSendsNoData(s: State, k: Key, a: Action, now: int, f: FaceId, d: Data)
    requires k in s.pit
    ensures Copies(Perform(s, k, a, now), f, d) == Copies(s, f, d)
  {
    hide Delete, UpsertOut, ViolatesScope, HasPendingOutRecords;
  }

  lemma {:induction false} PerformAllSendsNoData(s: State, k: Key, actions: seq<Action>, now: int, f: FaceId, d: Data)
    requires k in s.pit
    ensures Copies(PerformAll(s, k, actions, now), f, d) == Copies(s, f, d)
  {
    hide Perform, Copies;
    if actions != [] {
      var n := |actions| - 1;
      PerformAllSendsNoData(s, k, actions[..n], now, f, d);
      PerformSendsNoData(PerformAll(s, k, actions[..n], now), k, actions[n], now, f, d);
    }
  }

  lemma SatisfySendsNoData(s: State, k: Key, inFace: FaceId, data: Data, actions: seq<Action>, now: int, f: FaceId, d: Data)
    requires k in s.pit
    ensures Copies(Satisfy(s, k, inFace, data, actions, now), f, d) == Copies(s, f, d)
  {
    hide PerformAll, DeadNonces, Delete;
    PerformAllSendsNoData(WithEntry(s, k, Cancelled(s.pit[k])), k, actions, now, f, d);
  }

  lemma {:induction false} SatisfyAllSendsNoData(s: State, matches: seq<Match>, inFace: FaceId, data: Data, now: int, f: FaceId, d: Data)
    requires KeysIn(matches, s)
    ensures Copies(SatisfyAll(s, matches, inFace, data, now).0, f, d) == Copies(s, f, d)
  {
    hide Satisfy, Pending, SatisfyAll, Copies;
    if matches == [] {
      SatisfyAllNone(s, inFace, data, now);
    } else {
      var n := |matches| - 1;
      SatisfyAllSendsNoData(s, matches[..n], inFace, data, now, f, d);
      SatisfyAllStep(s, matches, inFace, data, now);
      SatisfySendsNoData(SatisfyAll(s, matches[..n], inFace, data, now).0, matches[n].key, inFace, data, matches[n].actions, now, f, d);
    }
  }

  lemma {:induction false} SendAllCopies(s: State, d: Data, faces: seq<FaceId>, inFace: FaceId, f: FaceId)
    requires NoDuplicates(faces)
    ensures var r := SendAll(s, d, faces, inFace);
      r.faces == s.faces && Copies(r, f, d) == Copies(s, f, d) + if f in faces && f != inFace && Reachable(s, f, d) then 1 else 0
  {
    hide UnderPrefix;
    if faces != [] {
      var n := |faces| - 1;
      var init := faces[..n];
      assert faces == init + [faces[n]];
      SendAllCopies(s, d, init, inFace, f);
    }
  }

  /** Incoming Data goes, once and with its own name restored, to each face that waits for it in a
      matching entry and may have it, never back to where it came from, and to no other face. */
  lemma DataReachesExactlyPending(s: State, inFace: FaceId, data: Data, matches: seq<Match>, admit: bool, now: int, f: FaceId)
    requires Inv(s) && Admitted(s, inFace, data) && KeysIn(matches, s) && DistinctKeys(matches)
    ensures Copies(OnIncomingData(s, inFace, data, matches, admit, now), f, Restored(data)) ==
      Copies(s, f, Restored(data)) + if Gets(s, inFace, Restored(data), matches, f, now) then 1 else 0
  {
    hide Inv, SatisfyAll, SendAll, UnderPrefix, Restored, IsPending, Reachable;
    var d := Restored(data);
    if matches == [] {
      NonePending(s, now);
    } else {
      var s0 := s.(cached := s.cached + [(d, false)]);
      CachedOk(s, (d, false));
      SatisfyAllOk(s0, matches, inFace, d, now);
      SatisfyAllPending(s0, matches, inFace, d, now);
      SatisfyAllSendsNoData(s0, matches, inFace, d, now, f, d);
      var (s1, pending) := SatisfyAll(s0, matches, inFace, d, now);
      SendAllCopies(s1, d, pending, inFace, f);
      SameFor(s, s0, matches, f, now);
      ReachableOnly(s, s1, f, d);
    }
  }

  // Which Nacks find their out-record

  /** The Nack gets past every check of its pipeline. */
  predicate Accepts(s: State, inFace: FaceId, nackInterest: Interest) {
    TakesNacks(s.faces, inFace) && KeyOf(nackInterest) in s.pit &&
    var outRecords := s.pit[KeyOf(nackInterest)].outRecords;
    var i := IndexOf(outRecords, inFace);
    i.Some? && outRecords[i.value].nonce == nackInterest.nonce
  }

  /** A Nack that is not accepted is dropped; one that is marks its out-record before the strategy acts. */
  lemma NackDroppedOrMarked(s: State, inFace: FaceId, nackInterest: Interest, actions: seq<Action>, now: int)
    requires inFace in s.faces
    ensures var r, k := OnIncomingNack(s, inFace, nackInterest, actions, now), KeyOf(nackInterest);
      if !Accepts(s, inFace, nackInterest) then r == s
      else
        var e, i := s.pit[k], IndexOf(s.pit[k].outRecords, inFace).value;
        r == PerformAll(WithEntry(s, k, e.(outRecords := e.outRecords[i := e.outRecords[i].(attached := true)])), k, actions, now)
  {
  }

  /** A Nack whose Interest has a queried part finds no PIT entry. */
  lemma QueriedNackDropped(s: State, inFace: FaceId, nackInterest: Interest)
    requires Inv(s) && Q.Contains(nackInterest.name, Q.QUERIED)
    ensures !Accepts(s, inFace, nackInterest)
  {
    hide Balanced, IdsOk, Q.Contains, TimersOk;
    assert forall k :: k in s.pit ==> Shape(s.faces, k, s.pit[k]);
  }

  lemma {:induction false} IndexAfterUpsert(records: seq<OutRecord>, face: FaceId, nonce: nat, expiry: int, now: int)
    ensures var r := UpsertOut(records, face, nonce, expiry, now); var i := IndexOf(r, face);
      i.Some? && r[i.value].nonce == nonce && r[i.value].expiry == expiry &&
      (r[i.value].attached <==> Has(records, face) && records[IndexOf(records, face).value].attached)
  {
    var p := IndexOf(records, face);
    if p.Some? {
      FirstIndex(records, records[p.value := Record(face, nonce, now, expiry, records[p.value].attached)], face);
    }
  }

  lemma {:induction false} FirstIndex(a: seq<OutRecord>, b: seq<OutRecord>, face: FaceId)
    requires |a| == |b| && forall i :: 0 <= i < |a| ==> a[i].face == b[i].face
    ensures IndexOf(a, face) == IndexOf(b, face)
  {
    if a != [] && a[0].face != face {
      assert a[1..] != [] ==> forall i :: 0 <= i < |a[1..]| ==> a[1..][i] == a[i + 1] && b[1..][i] == b[i + 1];
      FirstIndex(a[1..], b[1..], face);
    }
  }

  /** The Interest that was just sent. */
  function JustSent(before: State, after: State): Sent
    requires |after.sent| > |before.sent|
  {
    after.sent[|before.sent|]
  }

  predicate CanSend(s: State, k: Key, outFace: FaceId) {
    k in s.pit && outFace in s.faces && !ViolatesScope(s, s.pit[k], s.faces[outFace]) && s.pit[k].inRecords != []
  }

  const FACES: map<FaceId, Face> := map[1 := Face(true, false), 2 := Face(true, false)]
  const NOTHING_PENDING: State := State(FACES, map[], 0, [], [], [], [], [])

  /** An Interest without particulars. */
  function Ask(name: string): Interest {
    Interest(name, None, 0, false, 7, -1, None)
  }

  /** Face 1 has asked, and the strategy has sent the Interest on to face 2. */
  function Forwarded(name: string, word: string): State {
    var asked := Ask(name);
    State(FACES,
          map[KeyOf(asked) := Entry(0, asked, [Record(1, 7, 0, 4000, asked)], [Record(2, 7, 0, 4000, false)], Some(4000), None)],
          1, [], [1], [SentInterest(2, Q.OutgoingName(name, None, word), 7)], [], [])
  }

  /** That state is reached with one packet; face 1 has one answer due. */
  lemma ForwardedReached(name: string, word: string)
    requires !Q.Contains(name, Q.QUERIED) && !UnderPrefix(LOCALHOST, name) && !UnderPrefix(LOCALHOP, name)
    ensures OnIncomingInterest(NOTHING_PENDING, 1, Ask(name), false, None, "", [SendInterest(2, None, word)], 0) == Forwarded(name, word)
    ensures Inv(Forwarded(name, word)) && Credit(Forwarded(name, word), 1) == 0
  {
    hide Inv, Q.Find, Q.OutgoingName, UnderPrefix;
    var asked, r := Ask(name), Forwarded(name, word);
    var k := KeyOf(asked);
    var s1 := NOTHING_PENDING.(received := [1]);
    assert NOTHING_PENDING.received + [1] == [1];
    var e := Entry(0, asked, [], [], None, None);
    assert Arrived(asked) == asked;
    assert InsertPit(s1, asked) == s1.(pit := map[k := e], nextId := 1);
    assert !HasDuplicateNonce(e, 7);
    var s3 := s1.(pit := map[k := e], nextId := 1);
    assert WithEntry(s3, k, Cancelled(e)) == s3;
    var ins := [Record(1, 7, 0, 4000, asked)];
    assert UpsertIn([], 1, asked, 0) == ins && MaxExpiry(ins) == 4000;
    var s4 := s3.(pit := map[k := e.(inRecords := ins, unsatisfyTimer := Some(4000))]);
    assert WithEntry(s3, k, WithUnsatisfyTimer(e.(inRecords := ins))) == s4;
    assert OnContentStoreMiss(s3, k, 1, asked, "", [SendInterest(2, None, word)], 0) == r by { SentOn(s4, name, word); }
    NothingPendingOk();
    IncomingInterestOk(NOTHING_PENDING, 1, asked, false, None, "", [SendInterest(2, None, word)], 0);
    ForwardedCredit(name, word);
  }

  /** The strategy's one action. */
  lemma SentOn(s: State, name: string, word: string)
    requires var asked := Ask(name);
      s == State(FACES, map[KeyOf(asked) := Entry(0, asked, [Record(1, 7, 0, 4000, asked)], [], Some(4000), None)], 1, [], [1], [], [], [])
    requires !UnderPrefix(LOCALHOST, name)
    ensures PerformAll(s, KeyOf(Ask(name)), [SendInterest(2, None, word)], 0) == Forwarded(name, word)
  {
    hide UnderPrefix, Q.OutgoingName;
    var k := KeyOf(Ask(name));
    var actions := [SendInterest(2, None, word)];
    assert actions[..0] == [] && PerformAll(s, k, [], 0) == s;
    assert UpsertOut([], 2, 7, 4000, 0) == [Record(2, 7, 0, 4000, false)];
  }

  lemma NothingPendingOk()
    ensures Inv(NOTHING_PENDING)
  {
    forall f ensures Credit(NOTHING_PENDING, f) >= 0 {
      assert Holders(NOTHING_PENDING.pit, f) == {};
    }
  }

  lemma ForwardedCredit(name: string, word: string)
    ensures Credit(Forwarded(name, word), 1) == 0
  {
    hide Q.OutgoingName;
    var r, k := Forwarded(name, word), KeyOf(Ask(name));
    assert r.sent == [] + [r.sent[0]];
    AnswersAppend([], r.sent[0], 1);
    assert Has(r.pit[k].inRecords, 1);
    hide Has;
    assert Holders(r.pit, 1) == {k};
  }

  lemma NotLocal()
    ensures forall name :: name == "/a" || name == "/query/a" ==> !UnderPrefix(LOCALHOST, name) && !UnderPrefix(LOCALHOP, name)
  {
  }

  // Where a promise is not kept

  ghost predicate OtherPending(e: Entry, outFace: FaceId, now: int) {
    exists i :: 0 <= i < |e.outRecords| && e.outRecords[i].face != outFace && e.outRecords[i].expiry >= now && !e.outRecords[i].attached
  }

  predicate WasNacked(e: Entry, outFace: FaceId) {
    Has(e.outRecords, outFace) && e.outRecords[IndexOf(e.outRecords, outFace).value].attached
  }

  /** After an Interest was sent, rejecting it is refused if and only if another out-record is pending
      or the one of its face was not Nacked before: an old Nack stays on the record that is used again. */
  lemma RejectRefusedIff(s: State, k: Key, outFace: FaceId, newNonce: Option<nat>, word: string, now: int)
    requires Inv(s) && CanSend(s, k, outFace)
    ensures var resent := OnOutgoingInterest(s, k, outFace, newNonce, word, now); var r := OnInterestReject(resent, k, now);
      |resent.sent| == |s.sent| + 1 && JustSent(s, resent).SentInterest? &&
      (HasPendingOutRecords(resent.pit[k], now) <==> OtherPending(s.pit[k], outFace, now) || !WasNacked(s.pit[k], outFace)) &&
      (if HasPendingOutRecords(resent.pit[k], now) then r == resent
       else r.pit[k].unsatisfyTimer.None? && r.pit[k].stragglerTimer == Some(Straggler(now + 100, false, -1)))
  {
    hide Balanced, IdsOk, TimersOk, ViolatesScope, Q.OutgoingName, Pick;
    assert Shape(s.faces, k, s.pit[k]);
    var before := s.pit[k].outRecords;
    var picked := s.pit[k].inRecords[Pick(s.pit[k].inRecords, outFace)].attached;
    var nonce := if newNonce.Some? then newNonce.value else picked.nonce;
    UpsertPending(before, outFace, nonce, Expiry(picked, now), now, s.pit[k]);
  }

  lemma UpsertPending(before: seq<OutRecord>, outFace: FaceId, nonce: nat, expiry: int, now: int, e: Entry)
    requires e.outRecords == before && OnePerFace(before) && expiry >= now
    ensures HasPendingOutRecords(e.(outRecords := UpsertOut(before, outFace, nonce, expiry, now)), now) <==>
      OtherPending(e, outFace, now) || !WasNacked(e, outFace)
  {
    var after := UpsertOut(before, outFace, nonce, expiry, now);
    var p := IndexOf(before, outFace);
    var shift := if p.None? then 1 else 0;
    assert forall i {:trigger before[i]} :: 0 <= i < |before| && before[i].face != outFace ==> after[i + shift] == before[i];
    var q := if p.None? then 0 else p.value;
    assert after[q].face == outFace && after[q].expiry >= now && (after[q].attached <==> WasNacked(e, outFace));
    assert forall i {:trigger after[i]} :: 0 <= i < |after| && i != q ==> after[i] == before[i - shift] && after[i].face != outFace;
  }

  lemma PlainName()
    ensures !Q.Contains("/a", Q.QUERIED) && !Q.Contains("/a", Q.QUERY) && Q.OutgoingName("/a", None, "") == "/a"
  {
  }

  /** Send, Nack, resend, reject: the Interest is out a second time and its entry already given up. */
  lemma ResentThenRejected()
    ensures var r := OnIncomingNack(Forwarded("/a", ""), 2, Ask("/a"), [SendInterest(2, None, ""), RejectInterest], 1);
      r.sent == [SentInterest(2, "/a", 7), SentInterest(2, "/a", 7)] && KeyOf(Ask("/a")) in r.pit &&
      r.pit[KeyOf(Ask("/a"))].unsatisfyTimer.None? && r.pit[KeyOf(Ask("/a"))].stragglerTimer.Some?
  {
    hide Q.OutgoingName, UnderPrefix;
    var s, k := Forwarded("/a", ""), KeyOf(Ask("/a"));
    PlainName();
    NotLocal();
    var actions := [SendInterest(2, None, ""), RejectInterest];
    var nacked := [Record(2, 7, 0, 4000, true)];
    var s1 := WithEntry(s, k, s.pit[k].(outRecords := nacked));
    assert s.pit[k].outRecords[0 := s.pit[k].outRecords[0].(attached := true)] == nacked;
    assert OnIncomingNack(s, 2, Ask("/a"), actions, 1) == PerformAll(s1, k, actions, 1);
    assert actions[..1][..0] == [] && actions[..1] == [SendInterest(2, None, "")];
    var s2 := OnOutgoingInterest(s1, k, 2, None, "", 1);
    assert PerformAll(s1, k, [], 1) == s1 && PerformAll(s1, k, actions[..1], 1) == s2;
    assert UpsertOut(nacked, 2, 7, 4001, 1) == [Record(2, 7, 1, 4001, true)];
    assert s2.pit[k].outRecords == [Record(2, 7, 1, 4001, true)];
    assert !HasPendingOutRecords(s2.pit[k], 1);
    assert PerformAll(s1, k, actions, 1) == OnInterestReject(s2, k, 1);
  }

  const NACKED: seq<Match> := [Match(Key("/a", 0), [SendNack(1, NoRoute)])]

  /** A Nack goes to face 1 just before Data that it waits for. */
  lemma NackedStillGets(d: Data)
    ensures var s := Forwarded("/a", "");
      KeptBy(s, NACKED, 1) == 0 && Gets(s, 2, d, NACKED, 1, 1) && KeysIn(NACKED, s) && DistinctKeys(NACKED)
  {
    hide Q.OutgoingName, UnderPrefix, Has;
    var s := Forwarded("/a", "");
    assert IsNackTo(NACKED[0].actions[0], 1) && NacksTo(NACKED[0].actions, 1);
    assert !Keeps(s, NACKED[0], 1);
    KeptBySome(s, NACKED, 1);
    assert s.pit[Key("/a", 0)].inRecords[0].face == 1;
    assert AwaitsIn(s, NACKED[0], 1, 1);
  }

  /** A face overdrawn: it asked once, and gets a Nack from the trigger and then the Data. */
  lemma NackBeforeSatisfyOverdraws()
    ensures var s, d := Forwarded("/a", ""), Data("/a", "sha256digest=0", -1);
      Inv(s) && Credit(s, 1) == 0 && KeysIn(NACKED, s) && !NoneOverdrawn(s, 2, Restored(d), NACKED, 1) &&
      Credit(OnIncomingData(s, 2, d, NACKED, false, 1), 1) == -1
  {
    hide Inv, OnIncomingData, Credit, UnderPrefix, KeptBy, Gets, Keeps, Restored, KeysIn, DistinctKeys, Q.OutgoingName;
    PlainName();
    NotLocal();
    ForwardedReached("/a", "");
    var d := Data("/a", "sha256digest=0", -1);
    NackedStillGets(Restored(d));
    KeptBySome(Forwarded("/a", ""), NACKED, 1);
    DataCredit(Forwarded("/a", ""), 2, d, NACKED, false, 1);
  }
}
