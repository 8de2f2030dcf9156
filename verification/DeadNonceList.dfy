/** The Dead Nonce List (table/dead-nonce-list.cpp): a queue of hashes whose capacity follows the
    number of marks in it. */
module DeadNonceList {
  import opened Common
  import opened Names

  const INITIAL_CAPACITY: nat := 128
  const MIN_CAPACITY: nat := 8
  const MAX_CAPACITY: nat := 0x100_0000
  const MARK: Uint64 := 0
  const EXPECTED_MARK_COUNT: nat := 5
  const EVICT_LIMIT: nat := 64

  /** CAPACITY_UP is 1.2 and CAPACITY_DOWN 0.9; the product is cut to an integer. */
  function Up(capacity: nat): nat {
    Min(MAX_CAPACITY, capacity * 6 / 5)
  }

  function Down(capacity: nat): nat {
    Max(MIN_CAPACITY, capacity * 9 / 10)
  }

  datatype State = State(queue: seq<Uint64>, capacity: nat, markCounts: multiset<nat>)

  const INITIAL: State :=
    State([MARK, MARK, MARK, MARK, MARK], INITIAL_CAPACITY, multiset{})

  /** At most EVICT_LIMIT entries go, and none if that would leave fewer than the capacity. */
  function Evict(s: State): State {
    if |s.queue| <= s.capacity then s else s.(queue := s.queue[Min(|s.queue| - s.capacity, EVICT_LIMIT)..])
  }

  datatype Op = Add(entry: Uint64) | PutMark | AdjustCapacity

  /** All counts above the expected one: so, too, when nothing was counted. */
  ghost predicate AllAbove(counts: multiset<nat>) {
    forall c :: c in counts ==> c > EXPECTED_MARK_COUNT
  }

  ghost predicate AllBelow(counts: multiset<nat>) {
    forall c :: c in counts ==> c < EXPECTED_MARK_COUNT
  }

  ghost function Apply(s: State, op: Op): State {
    match op
    case Add(entry) => Evict(s.(queue := s.queue + [entry]))
    case PutMark =>
      var queue := s.queue + [MARK];
      s.(queue := queue, markCounts := s.markCounts + multiset{multiset(queue)[MARK]})
    case AdjustCapacity =>
      var capacity := if AllAbove(s.markCounts) then Down(s.capacity)
                      else if AllBelow(s.markCounts) then Up(s.capacity)
                      else s.capacity;
      Evict(State(s.queue, capacity, multiset{}))
  }

  ghost function Run(s: State, ops: seq<Op>): State {
    if ops == [] then s else Apply(Run(s, ops[..|ops| - 1]), ops[|ops| - 1])
  }

  /** What the operations append, oldest first. */
  function Pushes(ops: seq<Op>): seq<Uint64> {
    if ops == [] then []
    else
      var init := Pushes(ops[..|ops| - 1]);
      match ops[|ops| - 1]
      case Add(entry) => init + [entry]
      case PutMark => init + [MARK]
      case AdjustCapacity => init
  }

  /** The least capacity in force at any time of the run. */
  ghost function LeastCapacity(s: State, ops: seq<Op>): nat {
    if ops == [] then s.capacity
    else Min(LeastCapacity(s, ops[..|ops| - 1]), Run(s, ops).capacity)
  }

  ghost predicate CapacityOk(s: State) {
    MIN_CAPACITY <= s.capacity <= MAX_CAPACITY
  }

  lemma {:induction false} CapacityInBounds(s: State, ops: seq<Op>)
    requires CapacityOk(s)
    ensures CapacityOk(Run(s, ops))
  {
    if ops != [] {
      CapacityInBounds(s, ops[..|ops| - 1]);
    }
  }

  /** A mark was put since the last adjustment, or ever. */
  predicate MarkedSince(ops: seq<Op>) {
    ops != [] && ops[|ops| - 1] != AdjustCapacity && (ops[|ops| - 1] == PutMark || MarkedSince(ops[..|ops| - 1]))
  }

  /** Nothing has been counted if and only if no mark was put since the last adjustment; so an adjustment
      with one before it never decides on nothing. */
  lemma {:induction false} CountedSinceMark(s: State, ops: seq<Op>)
    requires s.markCounts == multiset{}
    ensures Run(s, ops).markCounts != multiset{} <==> MarkedSince(ops)
  {
    if ops != [] {
      var init, op := ops[..|ops| - 1], ops[|ops| - 1];
      CountedSinceMark(s, init);
      if op == PutMark {
        var queue: seq<Uint64> := Run(s, init).queue + [MARK];
        var count := multiset(queue)[MARK];
        assert count in Run(s, ops).markCounts;
      }
    }
  }

  /** Where the capacity goes at an adjustment: down by a tenth if all counts are above the expected one, up by
      a fifth if all are below, both cut to an integer and to the bounds; otherwise it stays. */
  lemma CapacityMoves(s: State, c: nat)
    requires CapacityOk(s) && c == Apply(s, AdjustCapacity).capacity
    ensures
      if forall n :: n in s.markCounts ==> n > 5 then
        c <= s.capacity && (c == 8 || 10 * c <= 9 * s.capacity < 10 * (c + 1)) && (s.capacity > 8 ==> c < s.capacity)
      else if forall n :: n in s.markCounts ==> n < 5 then
        c >= s.capacity && (c == 0x100_0000 || 5 * c <= 6 * s.capacity < 5 * (c + 1)) && (s.capacity < 0x100_0000 ==> c > s.capacity)
      else c == s.capacity
  {
  }

  /** Adding and adjusting evict: what is over capacity goes, the oldest first, 64 at most at a time. */
  lemma EvictsExactly(s: State, op: Op)
    requires !op.PutMark?
    ensures var r := Apply(s, op);
      var all := if op.Add? then s.queue + [op.entry] else s.queue;
      exists k :: 0 <= k <= |all| && r.queue == all[k..] &&
        k == (if |all| <= r.capacity then 0 else if |all| - r.capacity <= 64 then |all| - r.capacity else 64)
  {
    hide AllAbove, AllBelow, Up, Down;
    var all := if op.Add? then s.queue + [op.entry] else s.queue;
    assert all[0..] == all;
  }

  ghost predicate IsSuffix(q: seq<Uint64>, history: seq<Uint64>) {
    |q| <= |history| && q == history[|history| - |q|..]
  }

  lemma EvictSuffix(s: State, history: seq<Uint64>)
    requires IsSuffix(s.queue, history)
    ensures IsSuffix(Evict(s).queue, history)
    ensures |Evict(s).queue| >= Min(|s.queue|, s.capacity) && |Evict(s).queue| <= |s.queue|
  {
  }

  lemma AppendSuffix(q: seq<Uint64>, history: seq<Uint64>, entry: Uint64)
    requires IsSuffix(q, history)
    ensures IsSuffix(q + [entry], history + [entry])
  {
  }

  /** The queue is always a suffix of all that was ever pushed. */
  lemma {:induction false} QueueIsSuffix(s: State, ops: seq<Op>)
    ensures IsSuffix(Run(s, ops).queue, s.queue + Pushes(ops))
  {
    if ops == [] {
      assert s.queue + [] == s.queue;
    } else {
      var init, op := ops[..|ops| - 1], ops[|ops| - 1];
      QueueIsSuffix(s, init);
      var before, history := Run(s, init), s.queue + Pushes(init);
      match op {
        case Add(entry) =>
          AppendSuffix(before.queue, history, entry);
          ConcatAssociative(s.queue, Pushes(init), [entry]);
          EvictSuffix(before.(queue := before.queue + [entry]), history + [entry]);
        case PutMark =>
          AppendSuffix(before.queue, history, MARK);
          ConcatAssociative(s.queue, Pushes(init), [MARK]);
        case AdjustCapacity =>
          EvictSuffix(Apply(before, op).(queue := before.queue), history);
      }
    }
  }

  /** How many entries an operation pushes. */
  function PushCount(op: Op): nat {
    if op.AdjustCapacity? then 0 else 1
  }

  lemma ApplyLength(s: State, op: Op)
    ensures |Apply(s, op).queue| >= Min(|s.queue| + PushCount(op), Apply(s, op).capacity)
  {
    hide AllAbove, AllBelow, Up, Down;
    match op {
      case Add(entry) => EvictLength(s.(queue := s.queue + [entry]));
      case PutMark =>
      case AdjustCapacity => EvictLength(State(s.queue, Apply(s, op).capacity, multiset{}));
    }
  }

  lemma EvictLength(s: State)
    ensures |Evict(s).queue| >= Min(|s.queue|, s.capacity) && Evict(s).capacity == s.capacity
  {
  }

  lemma LastOp(s: State, ops: seq<Op>)
    requires ops != []
    ensures var init, op := ops[..|ops| - 1], ops[|ops| - 1];
      Run(s, ops) == Apply(Run(s, init), op) && |Pushes(ops)| == |Pushes(init)| + PushCount(op) &&
      LeastCapacity(s, ops) == Min(LeastCapacity(s, init), Run(s, ops).capacity)
  {
    hide Apply;
  }

  /** The queue never falls short of the pushes since its start, unless by the least capacity. */
  lemma {:induction false} QueueLongEnough(s: State, ops: seq<Op>)
    requires |s.queue| >= 1
    ensures |Run(s, ops).queue| >= Min(1 + |Pushes(ops)|, LeastCapacity(s, ops))
  {
    if ops != [] {
      var init, op := ops[..|ops| - 1], ops[|ops| - 1];
      QueueLongEnough(s, init);
      LastOp(s, ops);
      ApplyLength(Run(s, init), op);
      hide Apply, Run, Pushes, LeastCapacity, PushCount;
    }
  }

  /** An entry is found as long as fewer later pushes happened than the least capacity since. */
  lemma Window(s: State, entry: Uint64, ops: seq<Op>)
    requires CapacityOk(s)
    requires |Pushes(ops)| < LeastCapacity(Apply(s, Add(entry)), ops)
    ensures entry in Run(Apply(s, Add(entry)), ops).queue
  {
    var start := Apply(s, Add(entry));
    assert start.queue != [] && start.queue[|start.queue| - 1] == entry by { AddedLast(s, entry); }
    hide Run, Apply, Pushes, LeastCapacity;
    QueueIsSuffix(start, ops);
    QueueLongEnough(start, ops);
    InLongSuffix(Run(start, ops).queue, start.queue, Pushes(ops));
  }

  lemma AddedLast(s: State, entry: Uint64)
    requires CapacityOk(s)
    ensures var q := Apply(s, Add(entry)).queue; q != [] && q[|q| - 1] == entry
  {
  }

  lemma InLongSuffix(q: seq<Uint64>, first: seq<Uint64>, later: seq<Uint64>)
    requires first != [] && IsSuffix(q, first + later) && |q| > |later|
    ensures first[|first| - 1] in q
  {
    assert q[|q| - |later| - 1] == (first + later)[|first| - 1];
  }

  /** So fewer than eight later pushes are always survived. */
  lemma WindowAtLeastMinimum(s: State, entry: Uint64, ops: seq<Op>)
    requires CapacityOk(s) && |Pushes(ops)| < MIN_CAPACITY
    ensures entry in Run(Apply(s, Add(entry)), ops).queue
  {
    LeastAtLeastMinimum(Apply(s, Add(entry)), ops);
    Window(s, entry, ops);
  }

  lemma {:induction false} LeastAtLeastMinimum(s: State, ops: seq<Op>)
    requires CapacityOk(s)
    ensures LeastCapacity(s, ops) >= MIN_CAPACITY
  {
    if ops != [] {
      LeastAtLeastMinimum(s, ops[..|ops| - 1]);
      CapacityInBounds(s, ops);
    }
  }

  class DeadNonceList {
    /** The hash of a name and a nonce. */
    const makeEntry: (Name, nat) -> Uint64
    var queue: seq<Uint64>
    var capacity: nat
    var actualMarkCounts: multiset<nat>

    ghost function Contents(): State
      reads this
    {
      State(queue, capacity, actualMarkCounts)
    }

    constructor (makeEntry: (Name, nat) -> Uint64)
      ensures Contents() == INITIAL && this.makeEntry == makeEntry
    {
      this.makeEntry := makeEntry;
      capacity, actualMarkCounts := INITIAL_CAPACITY, multiset{};
      queue := [];
      new;
      for i := 0 to EXPECTED_MARK_COUNT
        invariant |queue| == i && forall k :: 0 <= k < i ==> queue[k] == MARK
        invariant capacity == INITIAL_CAPACITY && actualMarkCounts == multiset{} && this.makeEntry == makeEntry
      {
        queue := queue + [MARK];
      }
    }

    method Has(name: Name, nonce: nat) returns (found: bool)
      ensures found == (makeEntry(name, nonce) in queue)
    {
      found := makeEntry(name, nonce) in queue;
    }

    method AddNonce(name: Name, nonce: nat)
      modifies this
      ensures Contents() == Apply(old(Contents()), Add(makeEntry(name, nonce)))
    {
      queue := queue + [makeEntry(name, nonce)];
      EvictEntries();
    }

    method Mark()
      modifies this
      ensures Contents() == Apply(old(Contents()), PutMark)
    {
      queue := queue + [MARK];
      actualMarkCounts := actualMarkCounts + multiset{multiset(queue)[MARK]};
    }

    method Adjust()
      modifies this
      ensures Contents() == Apply(old(Contents()), AdjustCapacity)
    {
      var above, below := CompareCounts(actualMarkCounts);
      if above {
        capacity := Down(capacity);
      } else if below {
        capacity := Up(capacity);
      }
      actualMarkCounts := multiset{};
      EvictEntries();
    }

    method EvictEntries()
      modifies this
      ensures Contents() == Evict(old(Contents()))
      ensures old(|queue| > capacity) ==> |queue| >= capacity
    {
      var nOverCapacity := |queue| - capacity;
      if nOverCapacity <= 0 {
        return;
      }
      var nEvict := Min(nOverCapacity, EVICT_LIMIT);
      while nEvict > 0
        invariant 0 <= nEvict <= |queue| && capacity == old(capacity) && actualMarkCounts == old(actualMarkCounts)
        invariant queue[nEvict..] == old(queue)[old(Min(|queue| - capacity, EVICT_LIMIT))..]
      {
        assert queue[1..][nEvict - 1..] == queue[nEvict..];
        queue := queue[1..];
        nEvict := nEvict - 1;
      }
    }
  }

  lemma NoCounts()
    ensures AllAbove(multiset{}) && AllBelow(multiset{})
  {
  }

  lemma OneMore(seen: multiset<nat>, c: nat)
    ensures AllAbove(seen + multiset{c}) <==> AllAbove(seen) && c > EXPECTED_MARK_COUNT
    ensures AllBelow(seen + multiset{c}) <==> AllBelow(seen) && c < EXPECTED_MARK_COUNT
  {
    var all := seen + multiset{c};
    assert c in all;
    assert forall x :: x in seen ==> x in all;
  }

  method CompareCounts(counts: multiset<nat>) returns (above: bool, below: bool)
    ensures above <==> AllAbove(counts)
    ensures below <==> AllBelow(counts)
  {
    above, below := true, true;
    var rest := counts;
    hide AllAbove, AllBelow;
    assert counts - rest == multiset{};
    assert AllAbove(multiset{}) && AllBelow(multiset{}) by { NoCounts(); }
    while rest != multiset{}
      invariant rest <= counts
      invariant above <==> AllAbove(counts - rest)
      invariant below <==> AllBelow(counts - rest)
      decreases |rest|
    {
      var c :| c in rest;
      ghost var seen := counts - rest;
      rest := rest - multiset{c};
      assert counts - rest == seen + multiset{c};
      OneMore(seen, c);
      above, below := above && c > EXPECTED_MARK_COUNT, below && c < EXPECTED_MARK_COUNT;
    }
    assert counts - multiset{} == counts;
  }
}
