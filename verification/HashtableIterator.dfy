/** Full enumeration of the name tree in hash table order (table/name-tree-iterator.cpp,
    FullEnumerationImpl). */
module HashtableIterator {
  import opened Common
  import opened Names
  import opened Hashtable

  /** The accepted nodes of a sequence, in order. */
  ghost function Accepted(nodes: seq<Node>, pred: Name -> bool): seq<Node> {
    if nodes == [] then []
    else (if pred(nodes[0].name) then [nodes[0]] else []) + Accepted(nodes[1..], pred)
  }

  lemma {:induction false} AcceptedConcat(a: seq<Node>, b: seq<Node>, pred: Name -> bool)
    ensures Accepted(a + b, pred) == Accepted(a, pred) + Accepted(b, pred)
  {
    if a == [] {
      assert a + b == b;
    } else {
      AcceptedConcat(a[1..], b, pred);
      var head := if pred(a[0].name) then [a[0]] else [];
      ConcatAssociative(head, Accepted(a[1..], pred), Accepted(b, pred));
      assert (a + b)[1..] == a[1..] + b && (a + b)[0] == a[0];
    }
  }

  /** What comes after position i of chain b. */
  ghost function After(chains: seq<seq<Node>>, b: nat, i: nat): seq<Node>
    requires b < |chains| && i < |chains[b]|
  {
    chains[b][i + 1..] + Flatten(chains[b + 1..])
  }

  /** Where an iterator stands: on a node, or before the first. */
  datatype Position = Start | On(b: nat, i: nat)

  ghost predicate StandsAt(chains: seq<seq<Node>>, entry: Node?, p: Position) {
    match p
    case Start => entry == null
    case On(b, i) => b < |chains| && i < |chains[b]| && chains[b][i] == entry
  }

  ghost function Ahead(chains: seq<seq<Node>>, entry: Node?, p: Position): seq<Node>
    requires StandsAt(chains, entry, p)
  {
    match p
    case Start => Flatten(chains)
    case On(b, i) => After(chains, b, i)
  }

  lemma FlattenFrom(chains: seq<seq<Node>>, b: nat)
    requires b < |chains|
    ensures Flatten(chains[b..]) == chains[b] + Flatten(chains[b + 1..])
  {
    assert chains[b..][1..] == chains[b + 1..];
  }

  /** Walks the rest of one chain. */
  method FirstAccepted(head: Node?, ghost c: seq<Node>, ghost i: nat, pred: Name -> bool) returns (found: Node?, ghost j: nat)
    requires i <= |c| && head == At(c, i) && Linked(c, At(c, 0))
    ensures found == null ==> Accepted(c[i..], pred) == []
    ensures found != null ==> i <= j < |c| && c[j] == found && Accepted(c[i..], pred) == [found] + Accepted(c[j + 1..], pred)
  {
    found, j := head, i;
    while found != null && !pred(found.name)
      invariant i <= j <= |c| && found == At(c, j)
      invariant Accepted(c[i..], pred) == Accepted(c[j..], pred)
      decreases |c| - j
    {
      assert c[j..][1..] == c[j + 1..];
      found, j := found.next, j + 1;
    }
    if found != null {
      assert c[j..][1..] == c[j + 1..];
    }
  }

  /** The first node of the first bucket that has one. */
  method FirstNode(ht: Hashtable) returns (node: Node?, ghost b: nat)
    requires ht.Valid()
    ensures node == null ==> Flatten(ht.chains) == []
    ensures node != null ==> b < |ht.chains| && 0 < |ht.chains[b]| && ht.chains[b][0] == node
    ensures node != null ==> Flatten(ht.chains) == [node] + After(ht.chains, b, 0)
  {
    hide Indexed, HashOfName;
    ghost var chains: seq<seq<Node>> := ht.chains;
    var bucket := 0;
    assert chains[0..] == chains;
    while bucket < |ht.buckets| && ht.buckets[bucket] == null
      invariant bucket <= |ht.buckets| && Flatten(chains[bucket..]) == Flatten(chains)
    {
      assert ChainOk(ht.buckets[bucket], chains[bucket]);
      FlattenFrom(chains, bucket);
      bucket := bucket + 1;
    }
    b := bucket;
    if bucket == |ht.buckets| {
      return null, b;
    }
    assert ChainOk(ht.buckets[bucket], chains[bucket]);
    FlattenFrom(chains, bucket);
    ConcatAssociative([chains[bucket][0]], chains[bucket][1..], Flatten(chains[bucket + 1..]));
    assert [chains[bucket][0]] + chains[bucket][1..] == chains[bucket];
    node := ht.buckets[bucket];
  }

  /** The next accepted node behind one: in the same bucket, then in those after it. */
  method NextAccepted(ht: Hashtable, pred: Name -> bool, current: Node, ghost b: nat, ghost i: nat)
    returns (next: Node?, ghost q: Position)
    requires ht.Valid() && StandsAt(ht.chains, current, On(b, i))
    ensures next == null ==> Accepted(After(ht.chains, b, i), pred) == []
    ensures next != null ==> q.On? && StandsAt(ht.chains, next, q)
    ensures next != null ==> Accepted(After(ht.chains, b, i), pred) == [next] + Accepted(Ahead(ht.chains, next, q), pred)
  {
    hide Accepted, Indexed, HashOfName, ChainOk;
    ghost var chains: seq<seq<Node>> := ht.chains;
    assert Linked(chains[b], ht.buckets[b]) by { ChainLinked(ht.buckets[b], chains[b]); }
    ghost var j: nat;
    next, j := FirstAccepted(current.next, chains[b], i + 1, pred);
    q := On(b, j);
    AcceptedConcat(chains[b][i + 1..], Flatten(chains[b + 1..]), pred);
    if next != null {
      AcceptedSplit(chains[b][i + 1..], next, chains[b][j + 1..], Flatten(chains[b + 1..]), pred);
      return;
    }

    assert BucketOf(chains[b][i].hash, |ht.buckets|) == b;
    var bucket := BucketOf(current.hash, |ht.buckets|) + 1;
    while bucket < |ht.buckets|
      invariant bucket <= |ht.buckets|
      invariant Accepted(After(chains, b, i), pred) == Accepted(Flatten(chains[bucket..]), pred)
    {
      assert Linked(chains[bucket], ht.buckets[bucket]) by { ChainLinked(ht.buckets[bucket], chains[bucket]); }
      FlattenFrom(chains, bucket);
      AcceptedConcat(chains[bucket], Flatten(chains[bucket + 1..]), pred);
      assert chains[bucket][0..] == chains[bucket];
      next, j := FirstAccepted(ht.buckets[bucket], chains[bucket], 0, pred);
      q := On(bucket, j);
      if next != null {
        AcceptedSplit(chains[bucket], next, chains[bucket][j + 1..], Flatten(chains[bucket + 1..]), pred);
        return;
      }
      bucket := bucket + 1;
    }
    AcceptedOne(null, pred);
    return null, q;
  }

  ghost predicate Linked(c: seq<Node>, head: Node?)
    reads c
  {
    head == At(c, 0) && forall k {:trigger c[k].next} :: 0 <= k < |c| ==> c[k].next == At(c, k + 1)
  }

  lemma ChainLinked(head: Node?, c: seq<Node>)
    requires ChainOk(head, c)
    ensures Linked(c, head)
  {
  }

  lemma AcceptedSplit(a: seq<Node>, node: Node, rest: seq<Node>, b: seq<Node>, pred: Name -> bool)
    requires Accepted(a, pred) == [node] + Accepted(rest, pred)
    ensures Accepted(a + b, pred) == [node] + Accepted(rest + b, pred)
  {
    AcceptedConcat(a, b, pred);
    AcceptedConcat(rest, b, pred);
    ConcatAssociative([node], Accepted(rest, pred), Accepted(b, pred));
  }

  /** Moves on to the next accepted node. */
  method Advance(ht: Hashtable, pred: Name -> bool, entry: Node?, ghost p: Position) returns (next: Node?, ghost q: Position)
    requires ht.Valid() && StandsAt(ht.chains, entry, p)
    ensures next == null ==> Accepted(Ahead(ht.chains, entry, p), pred) == []
    ensures next != null ==> q.On? && StandsAt(ht.chains, next, q)
    ensures next != null ==> Accepted(Ahead(ht.chains, entry, p), pred) == [next] + Accepted(Ahead(ht.chains, next, q), pred)
  {
    hide Accepted, Structured, Indexed;
    AcceptedOne(entry, pred);
    if entry != null {
      next, q := NextAccepted(ht, pred, entry, p.b, p.i);
      return;
    }
    ghost var b;
    next, b := FirstNode(ht);
    q := On(b, 0);
    if next == null {
      return;
    }
    AcceptedConcat([next], After(ht.chains, b, 0), pred);
    AcceptedOne(next, pred);
    if pred(next.name) {
      return;
    }
    assert [] + Accepted(After(ht.chains, b, 0), pred) == Accepted(After(ht.chains, b, 0), pred);
    next, q := NextAccepted(ht, pred, next, b, 0);
  }

  lemma AcceptedOne(node: Node?, pred: Name -> bool)
    ensures Accepted([], pred) == []
    ensures node != null ==> Accepted([node], pred) == if pred(node.name) then [node] else []
  {
  }

  /** Different chains share no node, and no chain repeats one. */
  ghost predicate Distinct(chains: seq<seq<Node>>) {
    (forall b {:trigger chains[b]} :: 0 <= b < |chains| ==> NoDuplicates(chains[b])) &&
    forall b, d, i :: 0 <= b < d < |chains| && 0 <= i < |chains[b]| ==> chains[b][i] !in chains[d]
  }

  lemma {:induction false} FlattenDistinct(chains: seq<seq<Node>>)
    requires Distinct(chains)
    ensures NoDuplicates(Flatten(chains))
    ensures forall b, i :: 0 <= b < |chains| && 0 <= i < |chains[b]| ==> chains[b][i] in Flatten(chains)
    ensures forall k :: 0 <= k < |Flatten(chains)| ==> exists b :: 0 <= b < |chains| && Flatten(chains)[k] in chains[b]
  {
    if chains != [] {
      var rest := chains[1..];
      FlattenDistinct(rest);
      var r := Flatten(rest);
      forall i | 0 <= i < |chains[0]| ensures chains[0][i] !in r {
        forall k | 0 <= k < |r| ensures r[k] != chains[0][i] {
          var b :| 0 <= b < |rest| && r[k] in rest[b];
          assert r[k] in chains[b + 1];
        }
      }
      DisjointConcat(chains[0], r);
      forall b, i | 0 <= b < |chains| && 0 <= i < |chains[b]| ensures chains[b][i] in Flatten(chains) {
        if b > 0 {
          assert rest[b - 1][i] in r;
        }
      }
      forall k | 0 <= k < |Flatten(chains)| ensures exists b :: 0 <= b < |chains| && Flatten(chains)[k] in chains[b] {
        if k < |chains[0]| {
          assert Flatten(chains)[k] in chains[0];
        } else {
          var b :| 0 <= b < |rest| && r[k - |chains[0]|] in rest[b];
          assert Flatten(chains)[k] in chains[b + 1];
        }
      }
    }
  }

  lemma {:induction false} AcceptedDistinct(nodes: seq<Node>, pred: Name -> bool)
    requires NoDuplicates(nodes)
    ensures NoDuplicates(Accepted(nodes, pred))
    ensures forall n {:trigger n in nodes} {:trigger n in Accepted(nodes, pred)} :: n in Accepted(nodes, pred) <==> n in nodes && pred(n.name)
  {
    if nodes != [] {
      var rest := nodes[1..];
      AcceptedDistinct(rest, pred);
      assert nodes == [nodes[0]] + rest;
      assert nodes[0] !in rest;
      if pred(nodes[0].name) {
        DisjointConcat([nodes[0]], Accepted(rest, pred));
      }
    }
  }

  /** The chains of a table are distinct and hold the nodes of the map. */
  lemma ChainsDistinct(ht: Hashtable)
    requires ht.Valid()
    ensures Distinct(ht.chains) && NodesOf(ht.chains) == ht.contents.Values
  {
    hide HashOfName;
    var chains: seq<seq<Node>> := ht.chains;
    forall b | 0 <= b < |chains| ensures NoDuplicates(chains[b]) {
      assert ChainOk(ht.buckets[b], chains[b]);
    }
    forall b, d, i | 0 <= b < d < |chains| && 0 <= i < |chains[b]| ensures chains[b][i] !in chains[d] {
      assert BucketOf(chains[b][i].hash, |ht.buckets|) == b;
      assert forall j :: 0 <= j < |chains[d]| ==> BucketOf(chains[d][j].hash, |ht.buckets|) == d;
    }
  }

  lemma FlattenNodes(chains: seq<seq<Node>>, n: Node)
    requires Distinct(chains)
    ensures n in Flatten(chains) <==> n in NodesOf(chains)
  {
    FlattenDistinct(chains);
    if n in Flatten(chains) {
      var k :| 0 <= k < |Flatten(chains)| && Flatten(chains)[k] == n;
      var b :| 0 <= b < |chains| && Flatten(chains)[k] in chains[b];
      var i :| 0 <= i < |chains[b]| && chains[b][i] == n;
    }
  }

  /** From the start to the end: the accepted nodes of the map, each once, in the order of the buckets. */
  method Enumerate(ht: Hashtable, pred: Name -> bool) returns (visited: seq<Node>)
    requires ht.Valid()
    ensures visited == Accepted(Flatten(ht.chains), pred)
    ensures NoDuplicates(visited)
    ensures forall n {:trigger n in visited} :: n in visited <==> n in ht.contents.Values && pred(n.name)
  {
    hide Accepted, Structured, Indexed;
    visited := [];
    ghost var chains: seq<seq<Node>> := ht.chains;
    var entry, p := Advance(ht, pred, null, Start);
    while entry != null
      invariant ht.Valid() && ht.chains == chains
      invariant entry != null ==> p.On? && StandsAt(chains, entry, p)
      invariant Accepted(Flatten(chains), pred) ==
        if entry == null then visited else visited + ([entry] + Accepted(Ahead(chains, entry, p), pred))
      decreases if entry == null then 0 else 1 + |Accepted(Ahead(chains, entry, p), pred)|
    {
      ghost var before, was := p, entry;
      var next;
      ghost var q;
      next, q := Advance(ht, pred, entry, p);
      ConcatAssociative(visited, [entry], Accepted(Ahead(chains, was, before), pred));
      visited := visited + [entry];
      entry, p := next, q;
    }
    ChainsDistinct(ht);
    FlattenDistinct(chains);
    AcceptedDistinct(Flatten(chains), pred);
    forall n {:trigger n in visited} | n in visited || n in ht.contents.Values
      ensures n in visited <==> n in ht.contents.Values && pred(n.name)
    {
      FlattenNodes(chains, n);
    }
  }
}
