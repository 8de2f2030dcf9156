/** The forwarding pipelines as steps over the PIT (fw/forwarder.cpp, fw/pit-algorithm.cpp,
    table/pit-face-record.cpp). Names are URIs and times milliseconds. A strategy appears as the
    list of actions that it takes in a trigger. Module QueryRewriting shows that the Interests
    shared by PIT entry and records keep their names, so they are values here. */
module Forwarder {
  import opened Common
  import Q = QueryRewriting

  const DEFAULT_INTEREST_LIFETIME: int := 4000
  const STRAGGLER_TIME: int := 100
  const DEAD_NONCE_LIFETIME: int := 6000
  const LOCALHOST: string := "/localhost"
  const LOCALHOP: string := "/localhop"

  type FaceId = nat

  datatype Face = Face(local: bool, multiAccess: bool)

  datatype Interest = Interest(name: string, queriedName: Option<string>, selectors: nat, mustBeFresh: bool,
                               nonce: nat, lifetime: int, nextHopFaceId: Option<FaceId>)

  /** A freshness period is negative if absent. */
  datatype Data = Data(name: string, digest: string, freshness: int)

  /** In-records carry the Interest, out-records whether a Nack came back. */
  datatype Record<T> = Record(face: FaceId, nonce: nat, lastRenewed: int, expiry: int, attached: T)

  type InRecord = Record<Interest>
  type OutRecord = Record<bool>

  datatype Straggler = Straggler(time: int, isSatisfied: bool, freshness: int)

  /** A PIT entry, with the times of its pending timers; id tells entries apart over a run. */
  datatype Entry = Entry(id: nat, interest: Interest, inRecords: seq<InRecord>, outRecords: seq<OutRecord>,
                         unsatisfyTimer: Option<int>, stragglerTimer: Option<Straggler>)

  /** PIT entries are found by name and selectors. */
  datatype Key = Key(name: string, selectors: nat)

  datatype Reason = Duplicate | NoRoute | Congestion

  datatype Sent =
    | SentInterest(face: FaceId, name: string, nonce: nat)
    | SentData(face: FaceId, data: Data)
    | SentNack(face: FaceId, name: string, nonce: nat, reason: Reason)

  /** Live faces; the PIT; ids given out and finalised; and what passed: the faces Interests came
      from, packets sent, nonces put on the Dead Nonce List, Data put into the Content Store. */
  datatype State = State(faces: map<FaceId, Face>, pit: map<Key, Entry>, nextId: nat, finalized: seq<nat>,
                         received: seq<FaceId>, sent: seq<Sent>, dead: seq<(string, nat)>, cached: seq<(Data, bool)>)

  /** What a strategy may do in a trigger. A new nonce makes a copy of the Interest; `word` is the
      word that a query name is rewritten with. */
  datatype Action =
    | SendInterest(outFace: FaceId, newNonce: Option<nat>, word: string)
    | RejectInterest
    | SendNack(face: FaceId, reason: Reason)

  /** Whether a name is a prefix of another, both being URIs. */
  predicate UnderPrefix(prefix: string, name: string) {
    prefix == "/" || name == prefix || (|name| > |prefix| && name[..|prefix|] == prefix && name[|prefix|] == '/')
  }

  // Records

  function IndexOf<T>(records: seq<Record<T>>, face: FaceId): (r: Option<nat>)
    ensures r.Some? ==> r.value < |records| && records[r.value].face == face
    ensures r.None? ==> forall i :: 0 <= i < |records| ==> records[i].face != face
  {
    if records == [] then None
    else if records[0].face == face then Some(0)
    else
      var r := IndexOf(records[1..], face);
      assert forall i :: 1 <= i < |records| ==> records[i] == records[1..][i - 1];
      if r.None? then None else Some(r.value + 1)
  }

  predicate Has<T>(records: seq<Record<T>>, face: FaceId) {
    IndexOf(records, face).Some?
  }

  function Delete<T>(records: seq<Record<T>>, face: FaceId): seq<Record<T>> {
    var i := IndexOf(records, face);
    if i.None? then records else records[..i.value] + records[i.value + 1..]
  }

  function Expiry(interest: Interest, now: int): int {
    now + if interest.lifetime < 0 then DEFAULT_INTEREST_LIFETIME else interest.lifetime
  }

  /** insertOrUpdateInRecord: in front if new. */
  function UpsertIn(records: seq<InRecord>, face: FaceId, interest: Interest, now: int): seq<InRecord> {
    var r := Record(face, interest.nonce, now, Expiry(interest, now), interest);
    var i := IndexOf(records, face);
    if i.Some? then records[i.value := r] else [r] + records
  }

  /** insertOrUpdateOutRecord: a Nack received for an earlier Interest stays on the record. */
  function UpsertOut(records: seq<OutRecord>, face: FaceId, nonce: nat, expiry: int, now: int): seq<OutRecord> {
    var i := IndexOf(records, face);
    if i.Some? then records[i.value := Record(face, nonce, now, expiry, records[i.value].attached)]
    else [Record(face, nonce, now, expiry, false)] + records
  }

  predicate Less(a: InRecord, b: InRecord, outFace: FaceId) {
    (a.face == outFace && b.face != outFace) ||
    ((a.face == outFace <==> b.face == outFace) && a.lastRenewed < b.lastRenewed)
  }

  /** The in-record whose Interest goes out: the last renewed of those from other faces. */
  function Pick(records: seq<InRecord>, outFace: FaceId): (r: nat)
    requires records != []
    ensures r < |records|
  {
    if |records| == 1 then 0
    else
      var n := |records| - 1;
      var best := Pick(records[..n], outFace);
      if Less(records[best], records[n], outFace) then n else best
  }

  function MaxExpiry(records: seq<InRecord>): (r: int)
    requires records != []
    ensures forall i :: 0 <= i < |records| ==> records[i].expiry <= r
    ensures exists i :: 0 <= i < |records| && records[i].expiry == r
  {
    var last := records[|records| - 1].expiry;
    if |records| == 1 then last
    else
      var init := records[..|records| - 1];
      var r := Max(MaxExpiry(init), last);
      assert forall i :: 0 <= i < |init| ==> init[i] == records[i];
      r
  }

  // Algorithms on a PIT entry

  predicate HasDuplicateNonce(e: Entry, nonce: nat) {
    (exists i :: 0 <= i < |e.inRecords| && e.inRecords[i].nonce == nonce) ||
    (exists i :: 0 <= i < |e.outRecords| && e.outRecords[i].nonce == nonce)
  }

  predicate HasPendingOutRecords(e: Entry, now: int) {
    exists i :: 0 <= i < |e.outRecords| && e.outRecords[i].expiry >= now && !e.outRecords[i].attached
  }

  /** /localhost stays on local faces; /localhop goes to others only if a local face asks. */
  predicate ViolatesScope(s: State, e: Entry, outFace: Face) {
    !outFace.local &&
    (UnderPrefix(LOCALHOST, e.interest.name) ||
     (UnderPrefix(LOCALHOP, e.interest.name) &&
      forall i :: 0 <= i < |e.inRecords| && e.inRecords[i].face in s.faces ==> !s.faces[e.inRecords[i].face].local))
  }

  // Timers

  function Cancelled(e: Entry): Entry {
    e.(unsatisfyTimer := None, stragglerTimer := None)
  }

  function WithUnsatisfyTimer(e: Entry): Entry
    requires e.inRecords != []
  {
    e.(unsatisfyTimer := Some(MaxExpiry(e.inRecords)))
  }

  function WithStragglerTimer(e: Entry, isSatisfied: bool, freshness: int, now: int): Entry {
    e.(stragglerTimer := Some(Straggler(now + STRAGGLER_TIME, isSatisfied, freshness)))
  }

  // Pipelines

  function WithEntry(s: State, k: Key, e: Entry): State {
    s.(pit := s.pit[k := e])
  }

  function OnOutgoingData(s: State, data: Data, outFace: FaceId): State {
    if outFace !in s.faces || (!s.faces[outFace].local && UnderPrefix(LOCALHOST, data.name)) then s
    else s.(sent := s.sent + [SentData(outFace, data)])
  }

  function OnInterestLoop(s: State, inFace: FaceId, interest: Interest): State
    requires inFace in s.faces
  {
    if s.faces[inFace].multiAccess then s
    else s.(sent := s.sent + [SentNack(inFace, interest.name, interest.nonce, Duplicate)])
  }

  /** An entry without in-records has nothing to send; the source asserts that this does not happen. */
  function OnOutgoingInterest(s: State, k: Key, outFace: FaceId, newNonce: Option<nat>, word: string, now: int): State
    requires k in s.pit
  {
    var e := s.pit[k];
    if outFace !in s.faces || ViolatesScope(s, e, s.faces[outFace]) || e.inRecords == [] then s
    else
      var picked := e.inRecords[Pick(e.inRecords, outFace)].attached;
      var nonce := if newNonce.Some? then newNonce.value else picked.nonce;
      var name := if newNonce.Some? then picked.name else Q.OutgoingName(picked.name, picked.queriedName, word);
      var after := e.(outRecords := UpsertOut(e.outRecords, outFace, nonce, Expiry(picked, now), now));
      WithEntry(s, k, after).(sent := s.sent + [SentInterest(outFace, name, nonce)])
  }

  function OnInterestReject(s: State, k: Key, now: int): State
    requires k in s.pit
  {
    if HasPendingOutRecords(s.pit[k], now) then s
    else WithEntry(s, k, WithStragglerTimer(Cancelled(s.pit[k]), false, -1, now))
  }

  function OnOutgoingNack(s: State, k: Key, outFace: FaceId, reason: Reason): State
    requires k in s.pit
  {
    var e := s.pit[k];
    var i := IndexOf(e.inRecords, outFace);
    if outFace !in s.faces || i.None? || s.faces[outFace].multiAccess then s
    else
      var interest := e.inRecords[i.value].attached;
      WithEntry(s, k, e.(inRecords := Delete(e.inRecords, outFace)))
        .(sent := s.sent + [SentNack(outFace, interest.name, interest.nonce, reason)])
  }

  function Perform(s: State, k: Key, a: Action, now: int): (r: State)
    requires k in s.pit
    ensures k in r.pit
  {
    match a
    case SendInterest(outFace, newNonce, word) => OnOutgoingInterest(s, k, outFace, newNonce, word, now)
    case RejectInterest => OnInterestReject(s, k, now)
    case SendNack(face, reason) => OnOutgoingNack(s, k, face, reason)
  }

  function PerformAll(s: State, k: Key, actions: seq<Action>, now: int): (r: State)
    requires k in s.pit
    ensures k in r.pit
  {
    if actions == [] then s
    else Perform(PerformAll(s, k, actions[..|actions| - 1], now), k, actions[|actions| - 1], now)
  }

  /** What the Dead Nonce List gets: the nonces of all out-records, or of one face's. */
  function DeadNonces(e: Entry, isSatisfied: bool, freshness: int, upstream: Option<FaceId>): seq<(string, nat)> {
    if isSatisfied && !(e.interest.mustBeFresh && 0 <= freshness < DEAD_NONCE_LIFETIME) then []
    else if upstream.None? then
      seq(|e.outRecords|, i requires 0 <= i < |e.outRecords| => (e.interest.name, e.outRecords[i].nonce))
    else
      var i := IndexOf(e.outRecords, upstream.value);
      if i.None? then [] else [(e.interest.name, e.outRecords[i.value].nonce)]
  }

  function OnInterestFinalize(s: State, k: Key, isSatisfied: bool, freshness: int): State
    requires k in s.pit
  {
    s.(dead := s.dead + DeadNonces(s.pit[k], isSatisfied, freshness, None),
       pit := s.pit - {k}, finalized := s.finalized + [s.pit[k].id])
  }

  function OnInterestUnsatisfied(s: State, k: Key, actions: seq<Action>, now: int): State
    requires k in s.pit
  {
    OnInterestFinalize(PerformAll(s, k, actions, now), k, false, -1)
  }

  function OnContentStoreMiss(s: State, k: Key, inFace: FaceId, interest: Interest, word: string,
                              actions: seq<Action>, now: int): State
    requires k in s.pit
  {
    var inRecords := UpsertIn(s.pit[k].inRecords, inFace, interest, now);
    var after := WithEntry(s, k, WithUnsatisfyTimer(s.pit[k].(inRecords := inRecords)));
    match interest.nextHopFaceId
    case None => PerformAll(after, k, actions, now)
    case Some(nextHop) =>
      if nextHop !in s.faces then after else OnOutgoingInterest(after, k, nextHop, None, word, now)
  }

  function OnContentStoreHit(s: State, k: Key, inFace: FaceId, data: Data, now: int): State
    requires k in s.pit
  {
    OnOutgoingData(WithEntry(s, k, WithStragglerTimer(s.pit[k], true, data.freshness, now)), data, inFace)
  }

  /** An Interest with its queried part put aside. */
  function Arrived(interest: Interest): Interest {
    interest.(
      queriedName :=
        if Q.Contains(interest.name, Q.QUERIED) && interest.queriedName.None? then Some(interest.name)
        else interest.queriedName,
      name := Q.Cut(interest.name))
  }

  function KeyOf(interest: Interest): Key {
    Key(interest.name, interest.selectors)
  }

  /** Pit::insert: finds the entry or makes one. */
  function InsertPit(s: State, interest: Interest): State {
    var k := KeyOf(interest);
    if k in s.pit then s
    else WithEntry(s, k, Entry(s.nextId, interest, [], [], None, None)).(nextId := s.nextId + 1)
  }

  /** `isDead` is what the Dead Nonce List says, `hit` what the Content Store finds; the strategy is not
      asked if the Interest names its next hop, and then `word` serves to rewrite a query name. */
  function OnIncomingInterest(s: State, inFace: FaceId, interest: Interest, isDead: bool, hit: Option<Data>, word: string,
                              actions: seq<Action>, now: int): State
    requires inFace in s.faces
  {
    var s1 := s.(received := s.received + [inFace]);
    if !s.faces[inFace].local && UnderPrefix(LOCALHOST, interest.name) then s1
    else if isDead then OnInterestLoop(s1, inFace, interest)
    else
      var i := Arrived(interest);
      var k := KeyOf(i);
      var s2 := InsertPit(s1, i);
      if HasDuplicateNonce(s2.pit[k], i.nonce) then OnInterestLoop(s2, inFace, i)
      else
        var s3 := WithEntry(s2, k, Cancelled(s2.pit[k]));
        if s3.pit[k].inRecords == [] && hit.Some? then OnContentStoreHit(s3, k, inFace, hit.value, now)
        else OnContentStoreMiss(s3, k, inFace, i, word, actions, now)
  }

  /** Faces whose in-records have not expired, appended to those already known. */
  function Pending(records: seq<InRecord>, known: seq<FaceId>, now: int): seq<FaceId> {
    if records == [] then known
    else
      var r := records[0];
      Pending(records[1..], if r.expiry > now && r.face !in known then known + [r.face] else known, now)
  }

  /** One matching entry: the strategy is told, and the entry marked satisfied. */
  function Satisfy(s: State, k: Key, inFace: FaceId, data: Data, actions: seq<Action>, now: int): State
    requires k in s.pit
  {
    var s1 := PerformAll(WithEntry(s, k, Cancelled(s.pit[k])), k, actions, now);
    var e := s1.pit[k];
    WithEntry(s1, k, WithStragglerTimer(e.(inRecords := [], outRecords := Delete(e.outRecords, inFace)),
                                        true, data.freshness, now))
      .(dead := s1.dead + DeadNonces(e, true, data.freshness, Some(inFace)))
  }

  /** A matching entry, with what the strategy does before it is satisfied. */
  datatype Match = Match(key: Key, actions: seq<Action>)

  predicate KeysIn(matches: seq<Match>, s: State) {
    forall i :: 0 <= i < |matches| ==> matches[i].key in s.pit
  }

  function SatisfyAll(s: State, matches: seq<Match>, inFace: FaceId, data: Data, now: int): (r: (State, seq<FaceId>))
    requires KeysIn(matches, s)
    ensures r.0.pit.Keys == s.pit.Keys
  {
    if matches == [] then (s, [])
    else
      var n := |matches| - 1;
      var (s1, pending) := SatisfyAll(s, matches[..n], inFace, data, now);
      var k := matches[n].key;
      PerformAllKeys(WithEntry(s1, k, Cancelled(s1.pit[k])), k, matches[n].actions, now);
      (Satisfy(s1, k, inFace, data, matches[n].actions, now), Pending(s1.pit[k].inRecords, pending, now))
  }

  lemma {:induction false} PerformAllKeys(s: State, k: Key, actions: seq<Action>, now: int)
    requires k in s.pit
    ensures PerformAll(s, k, actions, now).pit.Keys == s.pit.Keys
  {
    if actions != [] {
      PerformAllKeys(s, k, actions[..|actions| - 1], now);
    }
  }

  function SendAll(s: State, data: Data, faces: seq<FaceId>, inFace: FaceId): State {
    if faces == [] then s
    else
      var n := |faces| - 1;
      var s1 := SendAll(s, data, faces[..n], inFace);
      if faces[n] == inFace then s1 else OnOutgoingData(s1, data, faces[n])
  }

  /** The Data as the pipeline goes on with it. */
  function Restored(data: Data): Data {
    data.(name := Q.Cut(data.name))
  }

  /** `admit` is the decision on unsolicited Data. */
  function OnIncomingData(s: State, inFace: FaceId, data: Data, matches: seq<Match>, admit: bool, now: int): State
    requires inFace in s.faces && KeysIn(matches, s)
  {
    if !s.faces[inFace].local && UnderPrefix(LOCALHOST, data.name) then s
    else
      var d := Restored(data);
      if matches == [] then if admit then s.(cached := s.cached + [(d, true)]) else s
      else
        var (s1, pending) := SatisfyAll(s.(cached := s.cached + [(d, false)]), matches, inFace, d, now);
        SendAll(s1, d, pending, inFace)
  }

  /** The Nack's Interest is looked up by the name it carries. */
  function OnIncomingNack(s: State, inFace: FaceId, nackInterest: Interest, actions: seq<Action>, now: int): State
    requires inFace in s.faces
  {
    var k := KeyOf(nackInterest);
    if s.faces[inFace].multiAccess || k !in s.pit then s
    else
      var e := s.pit[k];
      var i := IndexOf(e.outRecords, inFace);
      if i.None? || e.outRecords[i.value].nonce != nackInterest.nonce then s
      else
        var out := e.outRecords[i.value].(attached := true);
        PerformAll(WithEntry(s, k, e.(outRecords := e.outRecords[i.value := out])), k, actions, now)
  }

  /** Removing a face takes its records out of every PIT entry. */
  function RemoveFace(s: State, face: FaceId): State {
    s.(faces := s.faces - {face},
       pit := map k | k in s.pit ::
         s.pit[k].(inRecords := Delete(s.pit[k].inRecords, face), outRecords := Delete(s.pit[k].outRecords, face)))
  }

  /** Whether Data satisfies an Interest: by name, the implicit digest included, and selectors. */
  predicate MatchesData(interest: Interest, d: Data, selects: (nat, Data) -> bool) {
    UnderPrefix(interest.name, d.name + "/" + d.digest) && selects(interest.selectors, d)
  }
}
