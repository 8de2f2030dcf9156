/** What the fragmenter, the link service and the reassembler promise together: any number of
    messages, fragmented and numbered mod 2^64, arriving interleaved and in any order while drop timers
    fire, are each delivered in full, once for every full set of fragments that no timeout breaks. */
module LpRoundTrip {
  import opened Common
  import opened Tlv
  import opened LpPacket
  import opened LpFragmenter
  import opened GenericLinkService
  import R = LpReassembler

  /** The link-layer packets of one network packet, as one remote endpoint sends them. */
  datatype Message = Message(endpoint: nat, id: Uint64, frames: seq<LpPacket>)

  /** What happens at the receiver: fragment `index` of message `msg` arrives at time `at`, or the drop
      timer of its partial packet fires. */
  datatype Event = Arrival(msg: nat, index: nat, at: int) | Timeout(msg: nat, at: int)

  ghost predicate WellFormed(m: Message, options: R.Options) {
    1 <= |m.frames| <= options.nMaxFragments &&
    (forall f :: f in m.frames ==> f.fragment.Some?) &&
    (if |m.frames| == 1 then m.frames[0].fragIndex.None? && m.frames[0].fragCount.None?
     else Numbered(m.frames, m.id)) &&
    IsElement(Payload(m.frames))
  }

  function KeyOf(m: Message): R.Key {
    R.Key(m.endpoint, m.id)
  }

  /** Fragmented messages differ in remote endpoint or message identifier. */
  ghost predicate Distinct(msgs: seq<Message>) {
    forall a, b :: 0 <= a < b < |msgs| && |msgs[a].frames| > 1 && |msgs[b].frames| > 1 ==>
      KeyOf(msgs[a]) != KeyOf(msgs[b])
  }

  ghost predicate Admits(msgs: seq<Message>, options: R.Options) {
    Distinct(msgs) && forall j :: 0 <= j < |msgs| ==> WellFormed(msgs[j], options)
  }

  predicate Complete(m: Message, got: set<nat>) {
    got == Indices(|m.frames|)
  }

  /** Completion hands a message up and forgets what was received of it. */
  function Forget(m: Message, got: set<nat>): set<nat> {
    if Complete(m, got) then {} else got
  }

  /** Which fragments of message j have arrived since it was last complete or timed out. */
  function GotOf(tr: seq<Event>, m: Message, j: nat): set<nat> {
    if tr == [] then {} else
    var got, last := GotOf(tr[..|tr| - 1], m, j), tr[|tr| - 1];
    if last.msg != j then got
    else if last.Timeout? then {}
    else Forget(m, got + {last.index})
  }

  function Got(tr: seq<Event>, msgs: seq<Message>): (got: seq<set<nat>>)
    ensures |got| == |msgs|
  {
    seq(|msgs|, j requires 0 <= j < |msgs| => GotOf(tr, msgs[j], j))
  }

  /** Any interleaving, any order, any duplicates, and drop timers firing anywhere in between; messages
      in one piece have none. When timers fire is the subject of OnTime. */
  ghost predicate Schedule(tr: seq<Event>, msgs: seq<Message>) {
    forall i :: 0 <= i < |tr| ==> tr[i].msg < |msgs| && EventOf(tr[i], msgs[tr[i].msg])
  }

  predicate EventOf(e: Event, m: Message) {
    if e.Timeout? then |m.frames| > 1 else e.index < |m.frames|
  }

  /** What has arrived of its message, the last arrival included. */
  function Reached(tr: seq<Event>, msgs: seq<Message>): set<nat>
    requires tr != [] && tr[|tr| - 1].Arrival? && tr[|tr| - 1].msg < |msgs|
  {
    var last := tr[|tr| - 1];
    GotOf(tr[..|tr| - 1], msgs[last.msg], last.msg) + {last.index}
  }

  /** Whether the last event is an arrival that completes its message. */
  predicate Completes(tr: seq<Event>, msgs: seq<Message>)
    requires tr != [] && tr[|tr| - 1].msg < |msgs|
  {
    tr[|tr| - 1].Arrival? && Complete(msgs[tr[|tr| - 1].msg], Reached(tr, msgs))
  }

  /** The receiver's table after a schedule, and what the last event led to. */
  ghost function Run(tr: seq<Event>, msgs: seq<Message>, options: R.Options): (r: (R.Table, R.Outcome))
    requires Schedule(tr, msgs) && Admits(msgs, options)
    ensures R.TableOk(r.0)
  {
    if tr == [] then (map[], R.Nothing) else
    var table, last := Run(tr[..|tr| - 1], msgs, options).0, tr[|tr| - 1];
    var m := msgs[last.msg];
    if last.Timeout? then (table - {KeyOf(m)}, R.Nothing)
    else
      assert m.frames[last.index] in m.frames;
      R.Receive(table, options, m.endpoint, m.frames[last.index], last.at)
  }

  /** A partial packet that has received exactly the fragments in `got`. */
  ghost predicate Holds(pp: R.PartialPacket, m: Message, got: set<nat>) {
    pp.fragCount == |pp.fragments| == |m.frames| && pp.nReceivedFragments == |got| &&
    forall i :: 0 <= i < |m.frames| ==> pp.fragments[i] == if i in got then m.frames[i] else EMPTY
  }

  predicate Pending(m: Message, got: set<nat>) {
    |m.frames| > 1 && got != {} && !Complete(m, got)
  }

  /** The table holds the partly received messages, with what was received of them, and nothing else. */
  ghost predicate Agrees(table: R.Table, msgs: seq<Message>, got: seq<set<nat>>)
    requires |got| == |msgs|
  {
    (forall j :: 0 <= j < |msgs| && Pending(msgs[j], got[j]) ==>
      KeyOf(msgs[j]) in table && Holds(table[KeyOf(msgs[j])], msgs[j], got[j])) &&
    (forall k :: k in table ==> exists j :: 0 <= j < |msgs| && Pending(msgs[j], got[j]) && k == KeyOf(msgs[j]))
  }

  ghost predicate InRange(msgs: seq<Message>, got: seq<set<nat>>)
    requires |got| == |msgs|
  {
    forall j :: 0 <= j < |msgs| ==> got[j] <= Indices(|msgs[j].frames|)
  }

  /** What is held of a message is never complete, and of its own fragments. */
  lemma {:induction false} GotInRange(tr: seq<Event>, msgs: seq<Message>, j: nat)
    requires Schedule(tr, msgs) && j < |msgs| && msgs[j].frames != []
    ensures GotOf(tr, msgs[j], j) <= Indices(|msgs[j].frames|) && !Complete(msgs[j], GotOf(tr, msgs[j], j))
  {
    assert 0 in Indices(|msgs[j].frames|);
    if tr != [] {
      GotInRange(tr[..|tr| - 1], msgs, j);
    }
  }

  /** The last event changes what is held of its message only. */
  lemma GotNext(tr: seq<Event>, msgs: seq<Message>)
    requires tr != [] && Schedule(tr, msgs)
    ensures var last := tr[|tr| - 1];
      Got(tr, msgs) == Got(tr[..|tr| - 1], msgs)[last.msg :=
        if last.Timeout? then {} else Forget(msgs[last.msg], Reached(tr, msgs))]
  {
  }

  /** Each arrival either completes its message, which is then delivered with its original
      payload and first fragment, or delivers nothing, as a timeout does; and the table holds exactly
      the incomplete messages. */
  lemma {:induction false} RoundTrip(tr: seq<Event>, msgs: seq<Message>, options: R.Options)
    requires Admits(msgs, options) && Schedule(tr, msgs)
    ensures Agrees(Run(tr, msgs, options).0, msgs, Got(tr, msgs))
    ensures tr != [] ==>
      Run(tr, msgs, options).1 == (if Completes(tr, msgs) then WholeOf(msgs[tr[|tr| - 1].msg]) else R.Nothing)
  {
    hide R.Receive, Agrees, Complete, Distinct, Payload, Got, GotOf, Numbered, IsElement;
    if tr == [] {
      NothingYet(msgs);
    } else {
      var init, last := tr[..|tr| - 1], tr[|tr| - 1];
      var j := last.msg;
      RoundTrip(init, msgs, options);
      forall k | 0 <= k < |msgs|
        ensures GotOf(init, msgs[k], k) <= Indices(|msgs[k].frames|) && !Complete(msgs[k], GotOf(init, msgs[k], k))
      {
        GotInRange(init, msgs, k);
      }
      GotAt(init, msgs);
      GotNext(tr, msgs);
      if last.Timeout? {
        Dropped(Run(init, msgs, options).0, msgs, Got(init, msgs), j, options);
      } else {
        assert msgs[j].frames[last.index] in msgs[j].frames;
        Step(Run(init, msgs, options).0, msgs, Got(init, msgs), j, last.index, options, last.at);
        ForgetAgrees(Run(tr, msgs, options).0, msgs, Got(init, msgs), j, Reached(tr, msgs));
      }
    }
  }

  lemma GotAt(tr: seq<Event>, msgs: seq<Message>)
    ensures forall k :: 0 <= k < |msgs| ==> Got(tr, msgs)[k] == GotOf(tr, msgs[k], k)
  {
  }

  /** A complete message is not pending, remembered or not. */
  lemma ForgetAgrees(table: R.Table, msgs: seq<Message>, got: seq<set<nat>>, j: nat, now: set<nat>)
    requires |got| == |msgs| && j < |msgs| && Agrees(table, msgs, got[j := now])
    ensures Agrees(table, msgs, got[j := Forget(msgs[j], now)])
  {
    hide Holds, Complete;
    if Complete(msgs[j], now) {
      var a, b := got[j := now], got[j := {}];
      assert forall k :: 0 <= k < |msgs| ==> (Pending(msgs[k], a[k]) <==> Pending(msgs[k], b[k])) && (k != j ==> a[k] == b[k]);
      assert !Pending(msgs[j], a[j]);
      assert Agrees(table, msgs, b);
    }
  }

  lemma NothingYet(msgs: seq<Message>)
    ensures Agrees(map[], msgs, Got([], msgs))
  {
  }

  /** Message m handed up in full. */
  ghost function WholeOf(m: Message): R.Outcome
    requires m.frames != [] && forall f :: f in m.frames ==> f.fragment.Some?
  {
    R.Delivered(Payload(m.frames), m.frames[0])
  }

  /** The outcome of an arrival after which `got` has arrived of message m. */
  ghost function Expected(m: Message, got: set<nat>): R.Outcome
    requires m.frames != [] && forall f :: f in m.frames ==> f.fragment.Some?
  {
    if Complete(m, got) then WholeOf(m) else R.Nothing
  }

  /** One arrival, on any table that agrees with what has arrived before. */
  lemma Step(table: R.Table, msgs: seq<Message>, got: seq<set<nat>>, j: nat, i: nat, options: R.Options, at: int)
    requires Admits(msgs, options) && R.TableOk(table)
    requires |got| == |msgs| && Agrees(table, msgs, got) && InRange(msgs, got)
    requires j < |msgs| && i < |msgs[j].frames| && !Complete(msgs[j], got[j])
    requires msgs[j].frames[i].fragment.Some?
    ensures var r := R.Receive(table, options, msgs[j].endpoint, msgs[j].frames[i], at);
      Agrees(r.0, msgs, got[j := got[j] + {i}]) && r.1 == Expected(msgs[j], got[j] + {i})
  {
    hide Agrees, Holds, Payload, R.Receive;
    if |msgs[j].frames| == 1 {
      assert Indices(1) == {0} && got[j] + {i} == {0};
      SingleFrame(table, msgs[j], options, at);
      Untouched(table, msgs, got, got[j := got[j] + {i}]);
    } else {
      FragmentStep(table, msgs, got, j, i, options, at);
    }
  }

  lemma FragmentStep(table: R.Table, msgs: seq<Message>, got: seq<set<nat>>, j: nat, i: nat, options: R.Options, at: int)
    requires Admits(msgs, options) && R.TableOk(table)
    requires |got| == |msgs| && Agrees(table, msgs, got) && InRange(msgs, got)
    requires j < |msgs| && i < |msgs[j].frames| && !Complete(msgs[j], got[j]) && |msgs[j].frames| > 1
    requires msgs[j].frames[i].fragment.Some?
    ensures var r := R.Receive(table, options, msgs[j].endpoint, msgs[j].frames[i], at);
      Agrees(r.0, msgs, got[j := got[j] + {i}]) && r.1 == Expected(msgs[j], got[j] + {i})
  {
    hide Agrees, Complete, Holds, Payload, R.Receive, R.TableOk, R.PartialFor, Distinct, IsElement;
    Lookup(table, msgs, got, j, i, options);
    ReceiveOne(table, msgs[j], got[j], i, options, at);
    if i in got[j] {
      assert got[j] + {i} == got[j];
      assert got[j := got[j] + {i}] == got;
    } else {
      Replaced(table, msgs, got, j, i, R.Receive(table, options, msgs[j].endpoint, msgs[j].frames[i], at).0, options);
    }
  }

  /** One fragment at the reassembler: a copy changes nothing, any other is added, with a new timer. */
  lemma ReceiveOne(table: R.Table, m: Message, got: set<nat>, i: nat, options: R.Options, at: int)
    requires WellFormed(m, options) && |m.frames| > 1 && R.TableOk(table)
    requires i < |m.frames| && m.frames[i].fragment.Some? && got <= Indices(|m.frames|)
    requires Holds(R.PartialFor(table, KeyOf(m), m.frames[i]), m, got)
    ensures var r, key := R.Receive(table, options, m.endpoint, m.frames[i], at), KeyOf(m);
      if i in got then r == (table, R.Nothing)
      else
        r.1 == Expected(m, got + {i}) &&
        if Complete(m, got + {i}) then r.0 == table - {key}
        else key in r.0 && r.0 == table[key := r.0[key]] && Holds(r.0[key], m, got + {i}) &&
             r.0[key].dropAt == Some(at + options.reassemblyTimeout)
  {
    hide Holds, Complete, R.AddFragment, R.PartialOk, R.Deliver, R.NewPartial, R.TableOk, Payload, IsElement;
    FragmentKey(m, i);
    var pp := R.PartialFor(table, KeyOf(m), m.frames[i]);
    if i in got {
      AlreadyThere(pp, m, got, i);
    } else {
      AddOne(table, m, got, i, pp, at + options.reassemblyTimeout);
    }
  }

  /** A message sent in one piece is delivered as it arrives. */
  lemma SingleFrame(table: R.Table, m: Message, options: R.Options, at: int)
    requires WellFormed(m, options) && |m.frames| == 1 && R.TableOk(table)
    ensures m.frames[0].fragment.Some?
    ensures R.Receive(table, options, m.endpoint, m.frames[0], at) == (table, Expected(m, {0}))
  {
    var f := m.frames[0];
    assert f in m.frames;
    assert Payload(m.frames) == f.fragment.value + Payload([]);
    DeliverWhole(Payload(m.frames), f);
    assert Indices(1) == {0};
  }

  lemma DeliverWhole(payload: seq<Octet>, first: LpPacket)
    requires IsElement(payload)
    ensures R.Deliver(payload, first) == R.Delivered(payload, first)
  {
    assert payload[..|payload|] == payload;
  }

  lemma FragmentKey(m: Message, i: nat)
    requires Numbered(m.frames, m.id) && i < |m.frames|
    ensures R.KeyOf(m.endpoint, m.frames[i]) == KeyOf(m)
  {
    var n := m.id + i;
    assert (n % TWO_64 - i) % TWO_64 == m.id;
  }

  /** What the receiver finds under the key of a message. */
  lemma Lookup(table: R.Table, msgs: seq<Message>, got: seq<set<nat>>, j: nat, i: nat, options: R.Options)
    requires Admits(msgs, options) && |got| == |msgs| && Agrees(table, msgs, got)
    requires j < |msgs| && |msgs[j].frames| > 1 && Numbered(msgs[j].frames, msgs[j].id)
    requires i < |msgs[j].frames| && !Complete(msgs[j], got[j])
    ensures Holds(R.PartialFor(table, KeyOf(msgs[j]), msgs[j].frames[i]), msgs[j], got[j])
    ensures KeyOf(msgs[j]) in table <==> got[j] != {}
  {
    hide Complete, WellFormed, Payload;
    var key := KeyOf(msgs[j]);
    if key in table {
      var b :| 0 <= b < |msgs| && Pending(msgs[b], got[b]) && key == KeyOf(msgs[b]);
      assert b == j;
    }
  }

  lemma AlreadyThere(pp: R.PartialPacket, m: Message, got: set<nat>, i: nat)
    requires Numbered(m.frames, m.id) && Holds(pp, m, got) && i in got && i < |m.frames|
    ensures |pp.fragments| == |m.frames| == pp.fragCount && pp.fragments[i].sequence.Some?
  {
  }

  /** Storing one more fragment: the message stays partial, or it is complete and delivered. */
  lemma AddOne(table: R.Table, m: Message, got: set<nat>, i: nat, pp: R.PartialPacket, dropAt: int)
    requires Numbered(m.frames, m.id) && IsElement(Payload(m.frames))
    requires i < |m.frames| && i !in got && got <= Indices(|m.frames|)
    requires R.TableOk(table) && pp == R.PartialFor(table, KeyOf(m), m.frames[i]) && Holds(pp, m, got)
    ensures R.PartialOk(pp) || (pp == R.NewPartial(|m.frames|))
    ensures |pp.fragments| == |m.frames| == pp.fragCount && pp.fragments[i].sequence.None?
    ensures var r := R.AddFragment(table, KeyOf(m), pp, m.frames[i], dropAt);
      r.1 == Expected(m, got + {i}) &&
      (if Complete(m, got + {i}) then r.0 == table - {KeyOf(m)}
       else KeyOf(m) in r.0 && r.0 == table[KeyOf(m) := r.0[KeyOf(m)]] && Holds(r.0[KeyOf(m)], m, got + {i}) &&
            r.0[KeyOf(m)].dropAt == Some(dropAt))
  {
    hide Holds, Payload, IsElement, R.PartialOk;
    StoreHolds(pp, m, got, i);
    var stored := R.Store(pp, m.frames[i]);
    assert R.PartialOk(pp) || pp == R.NewPartial(|m.frames|);
    if Complete(m, got + {i}) {
      DeliverWhole(Payload(m.frames), m.frames[0]);
    } else {
      HoldsTimer(stored, m, got + {i}, dropAt);
    }
  }

  lemma HoldsTimer(pp: R.PartialPacket, m: Message, got: set<nat>, dropAt: int)
    requires Holds(pp, m, got)
    ensures Holds(pp.(dropAt := Some(dropAt)), m, got)
  {
  }

  lemma StoreHolds(pp: R.PartialPacket, m: Message, got: set<nat>, i: nat)
    requires Numbered(m.frames, m.id) && Holds(pp, m, got)
    requires i < |m.frames| && i !in got && got <= Indices(|m.frames|)
    ensures |pp.fragments| == |m.frames| == pp.fragCount && pp.fragments[i] == EMPTY
    ensures var stored := R.Store(pp, m.frames[i]);
      Holds(stored, m, got + {i}) && stored.fragCount == |m.frames| &&
      (Complete(m, got + {i}) <==> stored.nReceivedFragments == stored.fragCount) &&
      (Complete(m, got + {i}) ==> stored.fragments == m.frames)
  {
    hide R.PartialOk, Payload;
    OneMore(got, i, |m.frames|);
    var stored := R.Store(pp, m.frames[i]);
    assert Holds(stored, m, got + {i});
    hide Numbered;
    if Complete(m, got + {i}) {
      HoldsAll(stored, m, got + {i});
    }
  }

  lemma OneMore(got: set<nat>, i: nat, n: nat)
    requires i < n && i !in got && got <= Indices(n)
    ensures |got + {i}| == |got| + 1
    ensures |got + {i}| == n <==> got + {i} == Indices(n)
  {
    assert |got + {i}| == |got| + 1;
    IndicesCardinality(got + {i}, n);
  }

  lemma HoldsAll(pp: R.PartialPacket, m: Message, got: set<nat>)
    requires Holds(pp, m, got) && Complete(m, got)
    ensures pp.fragments == m.frames
  {
  }

  /** Where nothing changes for the pending messages, the same table still agrees. */
  lemma Untouched(table: R.Table, msgs: seq<Message>, got: seq<set<nat>>, after: seq<set<nat>>)
    requires |got| == |msgs| == |after| && Agrees(table, msgs, got)
    requires forall b :: 0 <= b < |msgs| ==> got[b] == after[b] || |msgs[b].frames| == 1
    ensures Agrees(table, msgs, after)
  {
    hide Holds, Complete;
    forall k | k in table ensures exists b :: 0 <= b < |msgs| && Pending(msgs[b], after[b]) && k == KeyOf(msgs[b]) {
      var b :| 0 <= b < |msgs| && Pending(msgs[b], got[b]) && k == KeyOf(msgs[b]);
      assert Pending(msgs[b], after[b]);
    }
  }

  /** Only the entry of message j changed, and it changed as it should. */
  lemma Replaced(table: R.Table, msgs: seq<Message>, got: seq<set<nat>>, j: nat, i: nat, next: R.Table, options: R.Options)
    requires |got| == |msgs| && Agrees(table, msgs, got) && Admits(msgs, options)
    requires j < |msgs| && |msgs[j].frames| > 1
    requires var key := KeyOf(msgs[j]);
      if Complete(msgs[j], got[j] + {i}) then next == table - {key}
      else key in next && next == table[key := next[key]] && Holds(next[key], msgs[j], got[j] + {i})
    ensures Agrees(next, msgs, got[j := got[j] + {i}])
  {
    hide Holds, WellFormed, Complete;
    var key, after := KeyOf(msgs[j]), got[j := got[j] + {i}];
    forall b | 0 <= b < |msgs| && Pending(msgs[b], after[b])
      ensures KeyOf(msgs[b]) in next && Holds(next[KeyOf(msgs[b])], msgs[b], after[b])
    {
      if b != j {
        assert KeyOf(msgs[b]) != key;
      }
    }
    forall k | k in next ensures exists b :: 0 <= b < |msgs| && Pending(msgs[b], after[b]) && k == KeyOf(msgs[b]) {
      if k == key {
        assert Pending(msgs[j], after[j]);
      } else {
        var b :| 0 <= b < |msgs| && Pending(msgs[b], got[b]) && k == KeyOf(msgs[b]);
        assert Pending(msgs[b], after[b]);
      }
    }
  }

  /** A timeout takes message j out of the table and leaves the others. */
  lemma Dropped(table: R.Table, msgs: seq<Message>, got: seq<set<nat>>, j: nat, options: R.Options)
    requires |got| == |msgs| && Agrees(table, msgs, got) && Admits(msgs, options)
    requires j < |msgs| && |msgs[j].frames| > 1
    ensures Agrees(table - {KeyOf(msgs[j])}, msgs, got[j := {}])
  {
    hide Holds, WellFormed, Complete;
    var next, key, after := table - {KeyOf(msgs[j])}, KeyOf(msgs[j]), got[j := {}];
    forall b | 0 <= b < |msgs| && Pending(msgs[b], after[b])
      ensures KeyOf(msgs[b]) in next && Holds(next[KeyOf(msgs[b])], msgs[b], after[b])
    {
      assert b != j && KeyOf(msgs[b]) != key;
    }
    forall k | k in next ensures exists b :: 0 <= b < |msgs| && Pending(msgs[b], after[b]) && k == KeyOf(msgs[b]) {
      var b :| 0 <= b < |msgs| && Pending(msgs[b], got[b]) && k == KeyOf(msgs[b]);
      assert Pending(msgs[b], after[b]);
    }
  }

  /** How many times message j was handed up during a schedule. */
  ghost function Deliveries(tr: seq<Event>, msgs: seq<Message>, options: R.Options, j: nat): nat
    requires Admits(msgs, options) && Schedule(tr, msgs)
  {
    if tr == [] then 0 else
    Deliveries(tr[..|tr| - 1], msgs, options, j) +
    if tr[|tr| - 1].msg == j && Run(tr, msgs, options).1 != R.Nothing then 1 else 0
  }

  /** How many times message j was complete. */
  function Rounds(tr: seq<Event>, m: Message, j: nat): nat {
    if tr == [] then 0 else
    var init, last := tr[..|tr| - 1], tr[|tr| - 1];
    Rounds(init, m, j) + if last.msg == j && last.Arrival? && Complete(m, GotOf(init, m, j) + {last.index}) then 1 else 0
  }

  /** A message is handed up exactly as often as it was complete. */
  lemma {:induction false} DeliveredOnceARound(tr: seq<Event>, msgs: seq<Message>, options: R.Options, j: nat)
    requires Admits(msgs, options) && Schedule(tr, msgs) && j < |msgs|
    ensures Deliveries(tr, msgs, options, j) == Rounds(tr, msgs[j], j)
  {
    hide Run, WellFormed, Distinct, Payload, Agrees, Complete, GotOf;
    if tr != [] {
      DeliveredOnceARound(tr[..|tr| - 1], msgs, options, j);
      RoundTrip(tr, msgs, options);
    }
  }

  /** The fragments of message j among some events. */
  function Arrived(tr: seq<Event>, j: nat): set<nat> {
    if tr == [] then {}
    else
      var last := tr[|tr| - 1];
      Arrived(tr[..|tr| - 1], j) + if last.msg == j && last.Arrival? then {last.index} else {}
  }

  ghost predicate NoTimeout(tr: seq<Event>, j: nat) {
    forall i :: 0 <= i < |tr| && tr[i].msg == j ==> tr[i].Arrival?
  }

  /** Between two points of a schedule every fragment of message j arrives, and no timeout of it. */
  ghost predicate FullSet(tr: seq<Event>, m: Message, j: nat, from: int, to: int)
    requires 0 <= from <= to <= |tr|
  {
    Indices(|m.frames|) <= Arrived(tr[from..to], j) && NoTimeout(tr[from..to], j)
  }

  /** At least r full sets of message j arrive, one behind the other. */
  ghost predicate FullSets(tr: seq<Event>, m: Message, j: nat, r: nat)
    decreases r
  {
    r == 0 || exists from, to {:trigger FullSet(tr, m, j, from, to)} ::
      0 <= from <= to <= |tr| && FullSet(tr, m, j, from, to) && FullSets(tr[..from], m, j, r - 1)
  }

  /** The last of the events since a cut. */
  lemma Since(tr: seq<Event>, j: nat, cut: nat)
    requires cut < |tr|
    ensures var init, last := tr[..|tr| - 1], tr[|tr| - 1];
      init[..cut] == tr[..cut] &&
      Arrived(tr[cut..], j) == Arrived(init[cut..], j) + (if last.msg == j && last.Arrival? then {last.index} else {}) &&
      (NoTimeout(tr[cut..], j) <==> NoTimeout(init[cut..], j) && !(last.msg == j && last.Timeout?))
  {
    var since := tr[cut..];
    assert since[..|since| - 1] == tr[..|tr| - 1][cut..];
    assert forall i :: 0 <= i < |since| ==> since[i] == if i < |since| - 1 then tr[..|tr| - 1][cut..][i] else tr[|tr| - 1];
  }

  /** Without completion or timeout in between, whatever came since the cut is still held. */
  lemma {:induction false} HeldSince(tr: seq<Event>, m: Message, j: nat, cut: nat)
    requires cut <= |tr|
    ensures Rounds(tr[..cut], m, j) <= Rounds(tr, m, j)
    ensures Rounds(tr[..cut], m, j) == Rounds(tr, m, j) && NoTimeout(tr[cut..], j) ==> Arrived(tr[cut..], j) <= GotOf(tr, m, j)
  {
    hide Arrived, Complete, NoTimeout;
    if cut == |tr| {
      assert tr[..cut] == tr && tr[cut..] == [];
      NoneArrived(j);
    } else {
      HeldSince(tr[..|tr| - 1], m, j, cut);
      Since(tr, j, cut);
    }
  }

  lemma NoneArrived(j: nat)
    ensures Arrived([], j) == {} && NoTimeout([], j)
  {
  }

  /** What is held came since some cut, before which the message was complete just as often, and
      without a timeout. */
  lemma {:induction false} HeldFrom(tr: seq<Event>, m: Message, j: nat) returns (cut: nat)
    ensures cut <= |tr| && Rounds(tr[..cut], m, j) == Rounds(tr, m, j)
    ensures GotOf(tr, m, j) == Arrived(tr[cut..], j) && NoTimeout(tr[cut..], j)
  {
    hide Arrived, Complete, NoTimeout;
    NoneArrived(j);
    if tr == [] {
      cut := 0;
    } else {
      var init, last := tr[..|tr| - 1], tr[|tr| - 1];
      cut := HeldFrom(init, m, j);
      if last.msg == j && (last.Timeout? || Complete(m, GotOf(init, m, j) + {last.index})) {
        cut := |tr|;
        assert tr[..cut] == tr && tr[cut..] == [];
      } else {
        Since(tr, j, cut);
      }
    }
  }

  /** Before its last completion a message was complete once less, and a full set came since. */
  lemma {:induction false} LastRound(tr: seq<Event>, m: Message, j: nat) returns (from: nat, to: nat)
    requires Rounds(tr, m, j) > 0
    ensures from <= to <= |tr| && Rounds(tr[..from], m, j) == Rounds(tr, m, j) - 1 && FullSet(tr, m, j, from, to)
  {
    hide Arrived, NoTimeout;
    var init, last := tr[..|tr| - 1], tr[|tr| - 1];
    if last.msg == j && last.Arrival? && Complete(m, GotOf(init, m, j) + {last.index}) {
      from := HeldFrom(init, m, j);
      to := |tr|;
      Since(tr, j, from);
      assert tr[from..to] == tr[from..];
    } else {
      from, to := LastRound(init, m, j);
      assert init[from..to] == tr[from..to] && init[..from] == tr[..from];
    }
  }

  /** A message is complete at least r times exactly if r full sets of its fragments arrive, one
      behind the other. */
  lemma {:induction false} RoundsAreFullSets(tr: seq<Event>, msgs: seq<Message>, j: nat, r: nat)
    requires Schedule(tr, msgs) && j < |msgs| && msgs[j].frames != []
    ensures Rounds(tr, msgs[j], j) >= r <==> FullSets(tr, msgs[j], j, r)
    decreases r
  {
    hide Complete, FullSet, GotOf, Rounds;
    var m := msgs[j];
    if r > 0 {
      if Rounds(tr, m, j) >= r {
        var from, to := LastRound(tr, m, j);
        RoundsAreFullSets(tr[..from], msgs, j, r - 1);
        assert FullSet(tr, m, j, from, to) && FullSets(tr[..from], m, j, r - 1);
      }
      if FullSets(tr, m, j, r) {
        var from, to :| 0 <= from <= to <= |tr| && FullSet(tr, m, j, from, to) && FullSets(tr[..from], m, j, r - 1);
        RoundsAreFullSets(tr[..from], msgs, j, r - 1);
        OneMoreRound(tr, msgs, j, from, to);
      }
    }
  }

  /** A full set brings one completion at least. */
  lemma OneMoreRound(tr: seq<Event>, msgs: seq<Message>, j: nat, from: nat, to: nat)
    requires Schedule(tr, msgs) && j < |msgs| && msgs[j].frames != []
    requires from <= to <= |tr| && FullSet(tr, msgs[j], j, from, to)
    ensures Rounds(tr, msgs[j], j) > Rounds(tr[..from], msgs[j], j)
  {
    hide Complete, GotOf, Rounds, NoTimeout, Arrived;
    var m, upTo := msgs[j], tr[..to];
    assert upTo[..from] == tr[..from] && upTo[from..] == tr[from..to];
    HeldSince(upTo, m, j, from);
    HeldSince(tr, m, j, to);
    GotInRange(upTo, msgs, j);
    NotHeld(m, Arrived(tr[from..to], j), GotOf(upTo, m, j));
  }

  lemma NotHeld(m: Message, arrived: set<nat>, got: set<nat>)
    requires Indices(|m.frames|) <= arrived && got <= Indices(|m.frames|) && !Complete(m, got)
    ensures !(arrived <= got)
  {
  }

  /** A message is delivered at least once if and only if all its fragments arrive without a timeout of
      it in between, and more than once if and only if that happens again behind it. */
  lemma DeliveredExactlyOnce(tr: seq<Event>, msgs: seq<Message>, options: R.Options, j: nat)
    requires Admits(msgs, options) && Schedule(tr, msgs) && j < |msgs|
    ensures Deliveries(tr, msgs, options, j) >= 1 <==>
      exists from, to :: 0 <= from <= to <= |tr| && FullSet(tr, msgs[j], j, from, to)
    ensures Deliveries(tr, msgs, options, j) <= 1 <==>
      !exists a, b, c, d :: 0 <= a <= b <= c <= d <= |tr| && FullSet(tr, msgs[j], j, a, b) && FullSet(tr, msgs[j], j, c, d)
  {
    hide Deliveries, Rounds, FullSet, FullSets, Distinct, Payload, Numbered, IsElement;
    var m := msgs[j];
    assert m.frames != [];
    DeliveredOnceARound(tr, msgs, options, j);
    RoundsAreFullSets(tr, msgs, j, 1);
    RoundsAreFullSets(tr, msgs, j, 2);
    OneSet(tr, m, j);
    TwoSets(tr, m, j);
  }

  lemma OneSet(tr: seq<Event>, m: Message, j: nat)
    ensures FullSets(tr, m, j, 1) <==> exists from, to :: 0 <= from <= to <= |tr| && FullSet(tr, m, j, from, to)
  {
    hide FullSet;
    assert forall from {:trigger tr[..from]} :: 0 <= from <= |tr| ==> FullSets(tr[..from], m, j, 0);
  }

  lemma TwoSets(tr: seq<Event>, m: Message, j: nat)
    ensures FullSets(tr, m, j, 2) <==>
      exists a, b, c, d :: 0 <= a <= b <= c <= d <= |tr| && FullSet(tr, m, j, a, b) && FullSet(tr, m, j, c, d)
  {
    hide FullSet;
    forall c | 0 <= c <= |tr|
      ensures FullSets(tr[..c], m, j, 1) <==> exists a, b :: 0 <= a <= b <= c && FullSet(tr, m, j, a, b)
    {
      OneSet(tr[..c], m, j);
      forall a, b | 0 <= a <= b <= c ensures FullSet(tr[..c], m, j, a, b) <==> FullSet(tr, m, j, a, b) {
        SameStretch(tr, m, j, a, b, c);
      }
    }
  }

  lemma SameStretch(tr: seq<Event>, m: Message, j: nat, a: nat, b: nat, c: nat)
    requires a <= b <= c <= |tr|
    ensures FullSet(tr[..c], m, j, a, b) <==> FullSet(tr, m, j, a, b)
  {
    assert tr[..c][a..b] == tr[a..b];
  }

  /** No partial packet is left behind if and only if every message was complete or timed out at its
      last event. */
  lemma NothingLeftBehind(tr: seq<Event>, msgs: seq<Message>, options: R.Options)
    requires Admits(msgs, options) && Schedule(tr, msgs)
    ensures Run(tr, msgs, options).0 == map[] <==> forall j :: 0 <= j < |msgs| ==> GotOf(tr, msgs[j], j) == {}
  {
    hide Distinct, Payload, Run, IsElement, Numbered, Complete, GotOf;
    RoundTrip(tr, msgs, options);
    GotAt(tr, msgs);
    forall j | 0 <= j < |msgs|
      ensures !Complete(msgs[j], GotOf(tr, msgs[j], j)) && (|msgs[j].frames| == 1 ==> GotOf(tr, msgs[j], j) == {})
    {
      GotInRange(tr, msgs, j);
      if |msgs[j].frames| == 1 {
        SingleNeverHeld(GotOf(tr, msgs[j], j), msgs[j]);
      }
    }
  }

  lemma SingleNeverHeld(got: set<nat>, m: Message)
    requires |m.frames| == 1 && got <= Indices(1) && !Complete(m, got)
    ensures got == {}
  {
    assert Indices(1) == {0};
  }

  // When drop timers fire

  /** The time of the last arrival that brought something new of message j. */
  function RenewedAt(tr: seq<Event>, m: Message, j: nat): int {
    if tr == [] then 0 else
    var init, last := tr[..|tr| - 1], tr[|tr| - 1];
    if last.msg == j && last.Arrival? && last.index !in GotOf(init, m, j) then last.at else RenewedAt(init, m, j)
  }

  /** The drop timer of a partly received message runs from there: a duplicate does not put it off. */
  lemma {:induction false} TimerOf(tr: seq<Event>, msgs: seq<Message>, options: R.Options, j: nat)
    requires Admits(msgs, options) && Schedule(tr, msgs) && j < |msgs| && |msgs[j].frames| > 1
    ensures KeyOf(msgs[j]) in Run(tr, msgs, options).0 <==> GotOf(tr, msgs[j], j) != {}
    ensures GotOf(tr, msgs[j], j) != {} ==>
      Run(tr, msgs, options).0[KeyOf(msgs[j])].dropAt == Some(RenewedAt(tr, msgs[j], j) + options.reassemblyTimeout)
  {
    hide Run, R.Receive, Agrees, Complete, Distinct, Payload, Got, Numbered, IsElement;
    KeyHeld(tr, msgs, options, j);
    if tr != [] {
      var init, last := tr[..|tr| - 1], tr[|tr| - 1];
      TimerOf(init, msgs, options, j);
      if KeyOf(msgs[j]) in Run(tr, msgs, options).0 {
        TimerStep(tr, msgs, options, j);
      }
    }
  }

  lemma KeyHeld(tr: seq<Event>, msgs: seq<Message>, options: R.Options, j: nat)
    requires Admits(msgs, options) && Schedule(tr, msgs) && j < |msgs| && |msgs[j].frames| > 1
    ensures KeyOf(msgs[j]) in Run(tr, msgs, options).0 <==> GotOf(tr, msgs[j], j) != {}
  {
    hide Run, Complete, Payload, Got, GotOf, Numbered, IsElement;
    RoundTrip(tr, msgs, options);
    GotAt(tr, msgs);
    GotInRange(tr, msgs, j);
    if KeyOf(msgs[j]) in Run(tr, msgs, options).0 {
      var b :| 0 <= b < |msgs| && Pending(msgs[b], Got(tr, msgs)[b]) && KeyOf(msgs[j]) == KeyOf(msgs[b]);
      assert b == j;
    }
  }

  /** The fragment of another message leaves a partial packet alone. */
  lemma OthersKept(table: R.Table, m: Message, i: nat, options: R.Options, at: int, key: R.Key)
    requires WellFormed(m, options) && i < |m.frames| && m.frames[i].fragment.Some? && R.TableOk(table)
    requires |m.frames| == 1 || KeyOf(m) != key
    ensures var r := R.Receive(table, options, m.endpoint, m.frames[i], at).0;
      (key in r <==> key in table) && (key in r ==> r[key] == table[key])
  {
    hide R.PartialOk, R.Deliver, R.Storable, Payload, IsElement;
    if |m.frames| > 1 {
      FragmentKey(m, i);
    }
  }

  /** The drop timer of message j is pending, to fire a timeout after the last renewal. */
  ghost predicate TimerSet(tr: seq<Event>, msgs: seq<Message>, options: R.Options, j: nat)
    requires Admits(msgs, options) && Schedule(tr, msgs) && j < |msgs|
  {
    KeyOf(msgs[j]) in Run(tr, msgs, options).0 &&
    Run(tr, msgs, options).0[KeyOf(msgs[j])].dropAt == Some(RenewedAt(tr, msgs[j], j) + options.reassemblyTimeout)
  }

  lemma TimerStep(tr: seq<Event>, msgs: seq<Message>, options: R.Options, j: nat)
    requires Admits(msgs, options) && Schedule(tr, msgs) && tr != [] && j < |msgs| && |msgs[j].frames| > 1
    requires GotOf(tr[..|tr| - 1], msgs[j], j) != {} ==> TimerSet(tr[..|tr| - 1], msgs, options, j)
    requires KeyOf(msgs[j]) in Run(tr, msgs, options).0
    ensures TimerSet(tr, msgs, options, j)
  {
    hide Run, TimerSet, GotOf, Admits;
    var init, last := tr[..|tr| - 1], tr[|tr| - 1];
    if last.Arrival? && last.msg == j {
      OwnTimerStep(tr, msgs, options);
    } else {
      OtherTimerStep(tr, msgs, options, j);
    }
  }

  lemma OtherTimerStep(tr: seq<Event>, msgs: seq<Message>, options: R.Options, j: nat)
    requires Admits(msgs, options) && Schedule(tr, msgs) && tr != [] && j < |msgs| && |msgs[j].frames| > 1
    requires GotOf(tr[..|tr| - 1], msgs[j], j) != {} ==> TimerSet(tr[..|tr| - 1], msgs, options, j)
    requires KeyOf(msgs[j]) in Run(tr, msgs, options).0 && !(tr[|tr| - 1].Arrival? && tr[|tr| - 1].msg == j)
    ensures TimerSet(tr, msgs, options, j)
  {
    hide R.Receive, R.TableOk, Complete, Payload, GotOf, Numbered, IsElement, WellFormed;
    var init, last := tr[..|tr| - 1], tr[|tr| - 1];
    KeyHeld(init, msgs, options, j);
    if last.Arrival? {
      var m := msgs[last.msg];
      FragmentOf(m, last.index, options);
      assert |m.frames| > 1 ==> KeyOf(m) != KeyOf(msgs[j]);
      hide Distinct;
      OthersKept(Run(init, msgs, options).0, m, last.index, options, last.at, KeyOf(msgs[j]));
    }
  }

  lemma FragmentOf(m: Message, i: nat, options: R.Options)
    requires WellFormed(m, options) && i < |m.frames|
    ensures m.frames[i].fragment.Some?
  {
    assert m.frames[i] in m.frames;
  }

  lemma OwnTimerStep(tr: seq<Event>, msgs: seq<Message>, options: R.Options)
    requires Admits(msgs, options) && Schedule(tr, msgs) && tr != [] && tr[|tr| - 1].Arrival?
    requires var last := tr[|tr| - 1];
      var j := last.msg;
      |msgs[j].frames| > 1 && KeyOf(msgs[j]) in Run(tr, msgs, options).0 &&
      (GotOf(tr[..|tr| - 1], msgs[j], j) != {} ==> TimerSet(tr[..|tr| - 1], msgs, options, j))
    ensures TimerSet(tr, msgs, options, tr[|tr| - 1].msg)
  {
    hide Run, R.Receive, R.TableOk, R.PartialFor, Complete, Holds, Payload, GotOf, Numbered, IsElement, Distinct, WellFormed;
    var init, last := tr[..|tr| - 1], tr[|tr| - 1];
    var m, table := msgs[last.msg], Run(init, msgs, options).0;
    FragmentOf(m, last.index, options);
    HeldBefore(init, msgs, options, last.msg, last.index);
    KeyHeld(init, msgs, options, last.msg);
    RunArrival(tr, msgs, options);
    ReceiveOne(table, m, GotOf(init, m, last.msg), last.index, options, last.at);
  }

  lemma RunArrival(tr: seq<Event>, msgs: seq<Message>, options: R.Options)
    requires Admits(msgs, options) && Schedule(tr, msgs) && tr != [] && tr[|tr| - 1].Arrival?
    ensures var last := tr[|tr| - 1];
      var m := msgs[last.msg];
      m.frames[last.index].fragment.Some? &&
      Run(tr, msgs, options) == R.Receive(Run(tr[..|tr| - 1], msgs, options).0, options, m.endpoint, m.frames[last.index], last.at)
  {
    hide R.Receive, Distinct;
    FragmentOf(msgs[tr[|tr| - 1].msg], tr[|tr| - 1].index, options);
  }

  lemma HeldBefore(tr: seq<Event>, msgs: seq<Message>, options: R.Options, j: nat, i: nat)
    requires Admits(msgs, options) && Schedule(tr, msgs) && j < |msgs| && |msgs[j].frames| > 1 && i < |msgs[j].frames|
    ensures GotOf(tr, msgs[j], j) <= Indices(|msgs[j].frames|)
    ensures Holds(R.PartialFor(Run(tr, msgs, options).0, KeyOf(msgs[j]), msgs[j].frames[i]), msgs[j], GotOf(tr, msgs[j], j))
  {
    hide Run, Agrees, Complete, Holds, Payload, Got, GotOf, Numbered, IsElement, R.PartialFor;
    RoundTrip(tr, msgs, options);
    GotAt(tr, msgs);
    GotInRange(tr, msgs, j);
    Lookup(Run(tr, msgs, options).0, msgs, Got(tr, msgs), j, i, options);
  }

  /** An event that the scheduler can bring: nothing happens while a drop timer is overdue, and none
      fires before it is due. */
  ghost predicate Timely(table: R.Table, e: Event, m: Message)
    requires R.TableOk(table)
  {
    (forall k :: k in table ==> assert R.PartialOk(table[k]); e.at <= table[k].dropAt.value) &&
    (e.Timeout? ==> KeyOf(m) in table && assert R.PartialOk(table[KeyOf(m)]); table[KeyOf(m)].dropAt.value <= e.at)
  }

  /** Schedules in which time goes forward and drop timers fire on time. */
  ghost predicate OnTime(tr: seq<Event>, msgs: seq<Message>, options: R.Options)
    requires Admits(msgs, options) && Schedule(tr, msgs)
  {
    tr == [] ||
    var init, last := tr[..|tr| - 1], tr[|tr| - 1];
    OnTime(init, msgs, options) && Timely(Run(init, msgs, options).0, last, msgs[last.msg]) &&
    (init != [] ==> init[|init| - 1].at <= last.at)
  }

  /** When the drop timer of message j is due, if one is pending. */
  function DueAt(tr: seq<Event>, m: Message, j: nat, options: R.Options): Option<int> {
    if GotOf(tr, m, j) == {} then None else Some(RenewedAt(tr, m, j) + options.reassemblyTimeout)
  }

  lemma DueInTable(tr: seq<Event>, msgs: seq<Message>, options: R.Options, j: nat)
    requires Admits(msgs, options) && Schedule(tr, msgs) && j < |msgs|
    ensures var key, table, due := KeyOf(msgs[j]), Run(tr, msgs, options).0, DueAt(tr, msgs[j], j, options);
      (due.Some? ==> |msgs[j].frames| > 1 && key in table && table[key].dropAt == due) &&
      (|msgs[j].frames| > 1 && key in table ==> due.Some?)
  {
    hide Run, Complete, Payload, GotOf, RenewedAt, Numbered, IsElement, Distinct;
    GotInRange(tr, msgs, j);
    if |msgs[j].frames| == 1 {
      SingleNeverHeld(GotOf(tr, msgs[j], j), msgs[j]);
    } else {
      TimerOf(tr, msgs, options, j);
    }
  }

  lemma DueForKey(tr: seq<Event>, msgs: seq<Message>, options: R.Options, k: R.Key)
    requires Admits(msgs, options) && Schedule(tr, msgs) && k in Run(tr, msgs, options).0
    ensures exists j :: 0 <= j < |msgs| && KeyOf(msgs[j]) == k && DueAt(tr, msgs[j], j, options).Some?
  {
    hide Run, Complete, Payload, Got, GotOf, RenewedAt, Numbered, IsElement, Distinct, Holds;
    RoundTrip(tr, msgs, options);
    GotAt(tr, msgs);
  }

  /** Whether an event is timely, in terms of what has happened. */
  lemma TimelyIff(tr: seq<Event>, msgs: seq<Message>, options: R.Options, e: Event)
    requires Admits(msgs, options) && Schedule(tr, msgs) && e.msg < |msgs| && EventOf(e, msgs[e.msg])
    ensures Timely(Run(tr, msgs, options).0, e, msgs[e.msg]) <==>
      (forall j :: 0 <= j < |msgs| && DueAt(tr, msgs[j], j, options).Some? ==> e.at <= DueAt(tr, msgs[j], j, options).value) &&
      (e.Timeout? ==> DueAt(tr, msgs[e.msg], e.msg, options) == Some(e.at))
  {
    hide Run, DueAt, Admits, Schedule, KeyOf;
    var table := Run(tr, msgs, options).0;
    forall k | k in table
      ensures exists j :: (
        0 <= j < |msgs| && KeyOf(msgs[j]) == k && DueAt(tr, msgs[j], j, options).Some? &&
        table[k].dropAt == DueAt(tr, msgs[j], j, options))
    {
      DueForKey(tr, msgs, options, k);
      var j :| 0 <= j < |msgs| && KeyOf(msgs[j]) == k && DueAt(tr, msgs[j], j, options).Some?;
      DueInTable(tr, msgs, options, j);
    }
    forall j | 0 <= j < |msgs| && DueAt(tr, msgs[j], j, options).Some?
      ensures KeyOf(msgs[j]) in table && table[KeyOf(msgs[j])].dropAt == DueAt(tr, msgs[j], j, options)
    {
      DueInTable(tr, msgs, options, j);
    }
    DueInTable(tr, msgs, options, e.msg);
  }

  /** What the arrival times alone say of message j: what is held at its last arrival, and since when.
      It is forgotten where the next arrival comes later than the reassembly timeout. */
  datatype Held = Held(got: set<nat>, since: int) {
    function At(time: int, timeout: nat): set<nat> {
      if got != {} && since + timeout < time then {} else got
    }
  }

  function ByTimes(tr: seq<Event>, m: Message, j: nat, timeout: nat): Held {
    if tr == [] then Held({}, 0) else
    var held, last := ByTimes(tr[..|tr| - 1], m, j, timeout), tr[|tr| - 1];
    if last.Timeout? || last.msg != j then held
    else
      var got := held.At(last.at, timeout);
      Held(Forget(m, got + {last.index}), if last.index in got then held.since else last.at)
  }

  /** No fragment of message j arrives in the very instant at which its drop timer is due. */
  predicate NoTie(tr: seq<Event>, m: Message, j: nat, timeout: nat) {
    tr == [] ||
    var init, last := tr[..|tr| - 1], tr[|tr| - 1];
    NoTie(init, m, j, timeout) &&
    (last.Arrival? && last.msg == j ==>
      var held := ByTimes(init, m, j, timeout); held.got == {} || held.since + timeout != last.at)
  }

  lemma {:induction false} ByTimesHeld(tr: seq<Event>, msgs: seq<Message>, options: R.Options, j: nat)
    requires Admits(msgs, options) && Schedule(tr, msgs) && OnTime(tr, msgs, options) && j < |msgs|
    requires NoTie(tr, msgs[j], j, options.reassemblyTimeout)
    ensures var held, got := ByTimes(tr, msgs[j], j, options.reassemblyTimeout), GotOf(tr, msgs[j], j);
      if got != {} then held == Held(got, RenewedAt(tr, msgs[j], j))
      else held.got == {} || (tr != [] && held.since + options.reassemblyTimeout <= tr[|tr| - 1].at)
  {
    hide Run, Timely, Complete, Admits;
    if tr != [] {
      var init, last := tr[..|tr| - 1], tr[|tr| - 1];
      ByTimesHeld(init, msgs, options, j);
      TimelyIff(init, msgs, options, last);
      assert DueAt(init, msgs[j], j, options).Some? ==> last.at <= DueAt(init, msgs[j], j, options).value;
    }
  }

  /** Where drop timers fire on time, the arrival times alone decide which arrival delivers a message. */
  lemma DecidedByTimes(tr: seq<Event>, msgs: seq<Message>, options: R.Options)
    requires Admits(msgs, options) && Schedule(tr, msgs) && OnTime(tr, msgs, options)
    requires tr != [] && tr[|tr| - 1].Arrival?
    requires NoTie(tr, msgs[tr[|tr| - 1].msg], tr[|tr| - 1].msg, options.reassemblyTimeout)
    ensures var init, last := tr[..|tr| - 1], tr[|tr| - 1];
      var m := msgs[last.msg];
      var held := ByTimes(init, m, last.msg, options.reassemblyTimeout);
      Completes(tr, msgs) <==> Complete(m, held.At(last.at, options.reassemblyTimeout) + {last.index})
  {
    hide Run, Timely, Complete, Admits;
    var init, last := tr[..|tr| - 1], tr[|tr| - 1];
    var j := last.msg;
    ByTimesHeld(init, msgs, options, j);
    TimelyIff(init, msgs, options, last);
    assert DueAt(init, msgs[j], j, options).Some? ==> last.at <= DueAt(init, msgs[j], j, options).value;
  }

  /** Both fragments of a message arrive and nothing is delivered: the second comes after the drop timer,
      which a duplicate of the first did not put off. Without the timeout that is no run on time. */
  lemma TimeoutLosesMessage(m: Message, options: R.Options, copyAt: int, late: int)
    requires WellFormed(m, options) && |m.frames| == 2 && 0 <= copyAt <= options.reassemblyTimeout < late
    ensures var tr := [Arrival(0, 0, 0), Arrival(0, 0, copyAt), Timeout(0, options.reassemblyTimeout), Arrival(0, 1, late)];
      Admits([m], options) && Schedule(tr, [m]) && OnTime(tr, [m], options) && Deliveries(tr, [m], options, 0) == 0
    ensures var tr := [Arrival(0, 0, 0), Arrival(0, 1, late)];
      Schedule(tr, [m]) && !OnTime(tr, [m], options)
  {
    hide WellFormed, Deliveries, Rounds, Run, Timely, OnTime, GotOf;
    var due := options.reassemblyTimeout;
    var tr := [Arrival(0, 0, 0), Arrival(0, 0, copyAt), Timeout(0, due), Arrival(0, 1, late)];
    DeliveredOnceARound(tr, [m], options, 0);
    NoRounds(m, copyAt, due, late);
    LossOnTime(m, options, copyAt, late);
    TwoOnTime(m, options, copyAt);
    assert [Arrival(0, 0, 0)] + [Arrival(0, 1, late)] == [Arrival(0, 0, 0), Arrival(0, 1, late)];
    OnTimeStep([Arrival(0, 0, 0)], Arrival(0, 1, late), m, options);
  }

  lemma LossOnTime(m: Message, options: R.Options, copyAt: int, late: int)
    requires Admits([m], options) && |m.frames| == 2 && 0 <= copyAt <= options.reassemblyTimeout < late
    ensures OnTime([Arrival(0, 0, 0), Arrival(0, 0, copyAt), Timeout(0, options.reassemblyTimeout), Arrival(0, 1, late)], [m], options)
  {
    hide Admits, OnTime, DueAt;
    var due := options.reassemblyTimeout;
    var two := [Arrival(0, 0, 0), Arrival(0, 0, copyAt)];
    var three := two + [Timeout(0, due)];
    TwoOnTime(m, options, copyAt);
    assert DueAt(three, m, 0, options) == None by { NothingDueAfter(m, options, copyAt, late); }
    OnTimeStep(two, three[2], m, options);
    OnTimeStep(three, Arrival(0, 1, late), m, options);
    assert three + [Arrival(0, 1, late)] == [Arrival(0, 0, 0), Arrival(0, 0, copyAt), Timeout(0, due), Arrival(0, 1, late)];
  }

  lemma TwoOnTime(m: Message, options: R.Options, copyAt: int)
    requires Admits([m], options) && |m.frames| == 2 && 0 <= copyAt <= options.reassemblyTimeout
    ensures OnTime([Arrival(0, 0, 0)], [m], options)
    ensures DueAt([Arrival(0, 0, 0)], m, 0, options) == Some(options.reassemblyTimeout)
    ensures var two := [Arrival(0, 0, 0), Arrival(0, 0, copyAt)];
      OnTime(two, [m], options) && DueAt(two, m, 0, options) == Some(options.reassemblyTimeout)
  {
    hide Admits, OnTime, GotOf, RenewedAt;
    var one := [Arrival(0, 0, 0)];
    NothingDue(m, options);
    FirstHeld(m, copyAt);
    assert [] + one == one && one + [Arrival(0, 0, copyAt)] == [Arrival(0, 0, 0), Arrival(0, 0, copyAt)];
    OnTimeStep([], one[0], m, options);
    OnTimeStep(one, Arrival(0, 0, copyAt), m, options);
  }

  lemma NothingDueAfter(m: Message, options: R.Options, copyAt: int, late: int)
    requires |m.frames| == 2
    ensures DueAt([Arrival(0, 0, 0), Arrival(0, 0, copyAt)] + [Timeout(0, options.reassemblyTimeout)], m, 0, options) == None
  {
    var due := options.reassemblyTimeout;
    NoRounds(m, copyAt, due, late);
    assert [Arrival(0, 0, 0), Arrival(0, 0, copyAt)] + [Timeout(0, due)] ==
      [Arrival(0, 0, 0), Arrival(0, 0, copyAt), Timeout(0, due), Arrival(0, 1, late)][..3];
  }

  lemma NothingDue(m: Message, options: R.Options)
    requires Admits([m], options)
    ensures GotOf([], m, 0) == {} && OnTime([], [m], options)
  {
  }

  /** One event more, with one message only. */
  lemma OnTimeStep(tr: seq<Event>, last: Event, m: Message, options: R.Options)
    requires Admits([m], options) && Schedule(tr + [last], [m]) && Schedule(tr, [m]) && OnTime(tr, [m], options)
    requires tr != [] ==> tr[|tr| - 1].at <= last.at
    ensures var due := DueAt(tr, m, 0, options);
      OnTime(tr + [last], [m], options) <==> (due.Some? ==> last.at <= due.value) && (last.Timeout? ==> due == Some(last.at))
  {
    hide Admits, Run, Timely, DueAt;
    var all := tr + [last];
    assert all[..|all| - 1] == tr && all[|all| - 1] == last;
    TimelyIff(tr, [m], options, last);
    assert [m][0] == m;
  }

  lemma FirstHeld(m: Message, copyAt: int)
    requires |m.frames| == 2
    ensures GotOf([Arrival(0, 0, 0)], m, 0) == {0} && RenewedAt([Arrival(0, 0, 0)], m, 0) == 0
    ensures var tr := [Arrival(0, 0, 0), Arrival(0, 0, copyAt)]; GotOf(tr, m, 0) == {0} && RenewedAt(tr, m, 0) == 0
  {
    assert Indices(2) == {0, 1} && Indices(2) != {0};
    var tr := [Arrival(0, 0, 0), Arrival(0, 0, copyAt)];
    assert tr[..1] == [Arrival(0, 0, 0)] && tr[..1][..0] == [];
  }

  lemma NoRounds(m: Message, copyAt: int, due: int, late: int)
    requires |m.frames| == 2
    ensures var tr := [Arrival(0, 0, 0), Arrival(0, 0, copyAt), Timeout(0, due), Arrival(0, 1, late)];
      GotOf(tr[..3], m, 0) == {} && Rounds(tr, m, 0) == 0
  {
    var one, two := [Arrival(0, 0, 0)], [Arrival(0, 0, 0), Arrival(0, 0, copyAt)];
    var three, four := two + [Timeout(0, due)], two + [Timeout(0, due)] + [Arrival(0, 1, late)];
    assert four == [Arrival(0, 0, 0), Arrival(0, 0, copyAt), Timeout(0, due), Arrival(0, 1, late)];
    assert Indices(2) == {0, 1} && Indices(2) != {0} && Indices(2) != {1};
    FirstHeld(m, copyAt);
    assert one[..0] == [] && two[..1] == one && three[..2] == two && four[..3] == three;
    assert GotOf([], m, 0) == {} && Rounds([], m, 0) == 0;
    assert Rounds(one, m, 0) == 0;
    assert Rounds(two, m, 0) == 0;
    assert Rounds(three, m, 0) == 0 && GotOf(three, m, 0) == {};
  }

  /** A fragment of a message of which nothing is held, be it late or not, starts a partial packet.
      That stays until a full set is there or its drop timer fires. */
  lemma LateFragmentReopens(table: R.Table, m: Message, i: nat, options: R.Options, at: int)
    requires WellFormed(m, options) && |m.frames| > 1 && i < |m.frames| && R.TableOk(table)
    requires KeyOf(m) !in table
    requires m.frames[i].fragment.Some?
    ensures var r := R.Receive(table, options, m.endpoint, m.frames[i], at);
      r.1 == R.Nothing && KeyOf(m) in r.0 && r.0[KeyOf(m)].dropAt == Some(at + options.reassemblyTimeout)
  {
    hide Payload, R.PartialOk, R.Deliver, IsElement;
    FragmentKey(m, i);
  }

  /** So late copies of both fragments of a message hand it up a second time. */
  lemma LateCopiesDeliverAgain(m: Message, options: R.Options, at: int)
    requires WellFormed(m, options) && |m.frames| == 2
    ensures var tr := [Arrival(0, 0, at), Arrival(0, 1, at), Arrival(0, 0, at), Arrival(0, 1, at)];
      Admits([m], options) && Schedule(tr, [m]) && Deliveries(tr, [m], options, 0) == 2
  {
    hide WellFormed, Deliveries, Rounds;
    var tr := [Arrival(0, 0, at), Arrival(0, 1, at), Arrival(0, 0, at), Arrival(0, 1, at)];
    DeliveredOnceARound(tr, [m], options, 0);
    TwoRounds(m, at);
  }

  lemma TwoRounds(m: Message, at: int)
    requires |m.frames| == 2
    ensures Rounds([Arrival(0, 0, at), Arrival(0, 1, at), Arrival(0, 0, at), Arrival(0, 1, at)], m, 0) == 2
  {
    var tr := [Arrival(0, 0, at), Arrival(0, 1, at), Arrival(0, 0, at), Arrival(0, 1, at)];
    assert Indices(2) == {0, 1} && Indices(2) != {0};
    assert tr[..3][..2] == tr[..2] && tr[..2][..1] == tr[..1] && tr[..1][..0] == [];
    assert GotOf(tr[..1], m, 0) == {0} && Rounds(tr[..1], m, 0) == 0;
    assert {0} + {1} == {0, 1};
    assert GotOf(tr[..2], m, 0) == {} && Rounds(tr[..2], m, 0) == 1;
    assert GotOf(tr[..3], m, 0) == {0} && Rounds(tr[..3], m, 0) == 1;
  }

  /** A network packet and the message its link service made of it. */
  datatype Sent = Sent(packet: LpPacket, message: Message)

  predicate Sendable(p: LpPacket) {
    Fragmentable(p) && IsElement(p.fragment.value)
  }

  predicate AllSendable(pkts: seq<LpPacket>) {
    forall i :: 0 <= i < |pkts| ==> Sendable(pkts[i])
  }

  /** Everything a link service sends for a run of packets, starting from `last`; packets the
      fragmenter rejects leave no message. */
  function SentBy(link: Link, endpoint: nat, last: Uint64, pkts: seq<LpPacket>): seq<Sent>
    requires AllSendable(pkts)
    decreases |pkts|
  {
    if pkts == [] then [] else
    var frames := Frames(link, last, pkts[0]);
    var rest := SentBy(link, endpoint, NextSeqNo(link, last, pkts[0]), pkts[1..]);
    if frames.None? then rest
    else [Sent(pkts[0], Message(endpoint, After(last, 1), frames.value))] + rest
  }

  /** Sequence numbers that run takes. */
  function SeqNosUsed(link: Link, last: Uint64, pkts: seq<LpPacket>): nat
    requires AllSendable(pkts)
    decreases |pkts|
  {
    if pkts == [] then 0 else
    var frames := Frames(link, last, pkts[0]);
    (if frames.Some? && |frames.value| > 1 then |frames.value| else 0) +
    SeqNosUsed(link, NextSeqNo(link, last, pkts[0]), pkts[1..])
  }

  /** No packet is lost at the sender if and only if the link takes every one. */
  lemma {:induction false} AllSent(link: Link, endpoint: nat, last: Uint64, pkts: seq<LpPacket>)
    requires AllSendable(pkts)
    ensures var sent := SentBy(link, endpoint, last, pkts);
      |sent| <= |pkts| &&
      (|sent| == |pkts| <==> forall i :: 0 <= i < |pkts| ==> Takes(link, pkts[i])) &&
      (|sent| == |pkts| ==> forall i :: 0 <= i < |pkts| ==> sent[i].packet == pkts[i])
    decreases |pkts|
  {
    hide Frames, Takes, NextSeqNo, After, IsElement;
    if pkts != [] {
      AllSent(link, endpoint, NextSeqNo(link, last, pkts[0]), pkts[1..]);
      FramesIff(link, last, pkts[0]);
      assert forall i :: 0 < i < |pkts| ==> pkts[i] == pkts[1..][i - 1];
      assert (forall i :: 0 <= i < |pkts| ==> Takes(link, pkts[i])) <==>
        Takes(link, pkts[0]) && forall i :: 0 <= i < |pkts[1..]| ==> Takes(link, pkts[1..][i]);
    }
  }

  function Messages(sent: seq<Sent>): (msgs: seq<Message>)
    ensures |msgs| == |sent|
  {
    seq(|sent|, i requires 0 <= i < |sent| => sent[i].message)
  }

  /** A message as its sender meant it: the packet's payload and first-fragment headers. */
  ghost predicate Faithful(s: Sent) {
    s.message.frames != [] && (forall f :: f in s.message.frames ==> f.fragment.Some?) &&
    s.packet.fragment.Some? && Payload(s.message.frames) == s.packet.fragment.value &&
    s.message.frames[0].headers == s.packet.headers
  }

  /** The id of a message sent after `used` more sequence numbers. */
  ghost predicate SentWithin(s: Sent, endpoint: nat, last: Uint64, used: nat) {
    s.message.endpoint == endpoint &&
    (|s.message.frames| > 1 ==> exists o: nat :: o < used && TakesNext(s, last, o))
  }

  /** The message starts right after `o` sequence numbers counted from `last`. */
  predicate TakesNext(s: Sent, last: Uint64, o: nat) {
    s.message.id == After(last, o + 1)
  }

  lemma OnePacket(link: Link, endpoint: nat, last: Uint64, p: LpPacket, options: R.Options)
    requires Sendable(p) && (link.allowFragmentation || link.mtu.None?)
    requires 1 <= options.nMaxFragments && link.nMaxFragments <= options.nMaxFragments
    requires Frames(link, last, p).Some?
    ensures var s := Sent(p, Message(endpoint, After(last, 1), Frames(link, last, p).value));
      WellFormed(s.message, options) && Faithful(s)
  {
    hide Frames, Payload, IsElement, After, Numbered, Fitting;
    FramesFitMtu(link, last, p);
    var frames := Frames(link, last, p).value;
    if |frames| != 1 {
      NumberedCarries(frames, After(last, 1));
    }
  }

  lemma {:induction false} SentWithinUsed(link: Link, endpoint: nat, last: Uint64, pkts: seq<LpPacket>)
    requires AllSendable(pkts)
    ensures forall s :: s in SentBy(link, endpoint, last, pkts) ==>
      SentWithin(s, endpoint, last, SeqNosUsed(link, last, pkts))
    decreases |pkts|
  {
    hide FragmentSpec, After, WireSize, IsElement;
    if pkts != [] {
      var next := NextSeqNo(link, last, pkts[0]);
      var n := SeqNosUsed(link, last, pkts) - SeqNosUsed(link, next, pkts[1..]);
      SentWithinUsed(link, endpoint, next, pkts[1..]);
      forall s | s in SentBy(link, endpoint, next, pkts[1..])
        ensures SentWithin(s, endpoint, last, SeqNosUsed(link, last, pkts))
      {
        if |s.message.frames| > 1 {
          var o: nat :| o < SeqNosUsed(link, next, pkts[1..]) && TakesNext(s, next, o);
          AfterZero(last);
          AfterAdds(last, n, o + 1);
          assert TakesNext(s, last, n + o);
        }
      }
      if Frames(link, last, pkts[0]).Some? {
        var s := Sent(pkts[0], Message(endpoint, After(last, 1), Frames(link, last, pkts[0]).value));
        assert TakesNext(s, last, 0);
      }
    }
  }

  lemma DistinctAfter(last: Uint64, i: nat, j: nat)
    requires i < j < i + TWO_64
    ensures After(last, i) != After(last, j)
  {
  }

  /** Everything one link service sends is admitted and faithful to its packets, as long as the
      run takes at most 2^64 sequence numbers; wherever the numbering wraps. */
  lemma {:induction false} SenderAdmits(link: Link, endpoint: nat, last: Uint64, pkts: seq<LpPacket>, options: R.Options)
    requires AllSendable(pkts)
    requires link.allowFragmentation || link.mtu.None?
    requires 1 <= options.nMaxFragments && link.nMaxFragments <= options.nMaxFragments
    requires SeqNosUsed(link, last, pkts) <= TWO_64
    ensures var sent := SentBy(link, endpoint, last, pkts);
      Admits(Messages(sent), options) && forall s :: s in sent ==> Faithful(s)
    decreases |pkts|
  {
    hide Frames, WireSize, IsElement, WellFormed, Faithful;
    if pkts != [] {
      var next := NextSeqNo(link, last, pkts[0]);
      var rest := SentBy(link, endpoint, next, pkts[1..]);
      SenderAdmits(link, endpoint, next, pkts[1..], options);
      if Frames(link, last, pkts[0]).Some? {
        var s := Sent(pkts[0], Message(endpoint, After(last, 1), Frames(link, last, pkts[0]).value));
        OnePacket(link, endpoint, last, pkts[0], options);
        SentWithinUsed(link, endpoint, next, pkts[1..]);
        FirstIsDistinct(link, endpoint, last, pkts, s, rest);
        Prepend(s, rest, options);
      }
    }
  }

  lemma FirstIsDistinct(link: Link, endpoint: nat, last: Uint64, pkts: seq<LpPacket>, s: Sent, rest: seq<Sent>)
    requires pkts != [] && AllSendable(pkts)
    requires Frames(link, last, pkts[0]).Some? && SeqNosUsed(link, last, pkts) <= TWO_64
    requires s == Sent(pkts[0], Message(endpoint, After(last, 1), Frames(link, last, pkts[0]).value))
    requires forall t :: t in rest ==>
      SentWithin(t, endpoint, NextSeqNo(link, last, pkts[0]), SeqNosUsed(link, NextSeqNo(link, last, pkts[0]), pkts[1..]))
    ensures forall t :: t in rest && |s.message.frames| > 1 && |t.message.frames| > 1 ==> KeyOf(s.message) != KeyOf(t.message)
  {
    hide Frames, After;
    var next, n := NextSeqNo(link, last, pkts[0]), |s.message.frames|;
    forall t | t in rest && n > 1 && |t.message.frames| > 1 ensures s.message.id != t.message.id {
      var o: nat :| o < SeqNosUsed(link, next, pkts[1..]) && TakesNext(t, next, o);
      AfterAdds(last, n, o + 1);
      DistinctAfter(last, 1, n + (o + 1));
    }
  }

  lemma Prepend(s: Sent, rest: seq<Sent>, options: R.Options)
    requires Admits(Messages(rest), options) && WellFormed(s.message, options)
    requires forall t :: t in rest && |s.message.frames| > 1 && |t.message.frames| > 1 ==> KeyOf(s.message) != KeyOf(t.message)
    ensures Admits(Messages([s] + rest), options)
  {
    hide WellFormed, KeyOf;
    var msgs, all := Messages(rest), Messages([s] + rest);
    assert forall j :: 0 < j < |all| ==> all[j] == msgs[j - 1] == rest[j - 1].message;
  }

  /** Several endpoints may send at once. */
  lemma EndpointsCombine(a: seq<Message>, b: seq<Message>, options: R.Options)
    requires Admits(a, options) && Admits(b, options)
    requires forall m, n :: m in a && n in b ==> m.endpoint != n.endpoint
    ensures Admits(a + b, options)
  {
    hide WellFormed;
    forall i, j | 0 <= i < j < |a + b| && |(a + b)[i].frames| > 1 && |(a + b)[j].frames| > 1
      ensures KeyOf((a + b)[i]) != KeyOf((a + b)[j])
    {
      if i < |a| <= j {
        assert (a + b)[i] in a && (a + b)[j] in b;
      }
    }
  }

  /** End to end. A link service sends a run of packets, its link-layer packets reach the
      receiver in any interleaving and any order: an arrival that completes a message hands up
      that packet's payload with its first-fragment headers, every other arrival hands up
      nothing. */
  lemma EndToEnd(link: Link, endpoint: nat, last: Uint64, pkts: seq<LpPacket>, options: R.Options, tr: seq<Event>)
    requires AllSendable(pkts)
    requires link.allowFragmentation || link.mtu.None?
    requires 1 <= options.nMaxFragments && link.nMaxFragments <= options.nMaxFragments
    requires SeqNosUsed(link, last, pkts) <= TWO_64
    requires tr != [] && Schedule(tr, Messages(SentBy(link, endpoint, last, pkts)))
    ensures var sent := SentBy(link, endpoint, last, pkts);
      var msgs := Messages(sent);
      Admits(msgs, options) &&
      ((forall i :: 0 <= i < |pkts| ==> Takes(link, pkts[i])) ==>
        |sent| == |pkts| && forall i :: 0 <= i < |pkts| ==> sent[i].packet == pkts[i]) &&
      var j := tr[|tr| - 1].msg;
      var outcome := Run(tr, msgs, options).1;
      if Completes(tr, msgs)
      then outcome.Delivered? && Some(outcome.netPkt) == sent[j].packet.fragment &&
           outcome.firstFrag.headers == sent[j].packet.headers
      else outcome == R.Nothing
  {
    hide SentBy, Run, WellFormed, Got, GotOf, Complete, IsElement, Payload, Distinct, Agrees, Takes;
    AllSent(link, endpoint, last, pkts);
    SenderAdmits(link, endpoint, last, pkts, options);
    var sent := SentBy(link, endpoint, last, pkts);
    RoundTrip(tr, Messages(sent), options);
    assert Faithful(sent[tr[|tr| - 1].msg]);
  }
}
