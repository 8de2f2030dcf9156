/** The name tree's hash table: chained buckets of doubly linked nodes, growing and shrinking
    with the number of nodes (table/name-tree-hashtable.cpp). */
module Hashtable {
  import opened Names

  type HashValue = nat

  /** Hash of the first prefixLen components; mix(h, c) stands for h ^ CityHash(c). */
  function ComputeHash(mix: (HashValue, Component) -> HashValue, name: Name, prefixLen: nat): HashValue
    requires prefixLen <= |name|
  {
    if prefixLen == 0 then 0 else mix(ComputeHash(mix, name, prefixLen - 1), name[prefixLen - 1])
  }

  function HashOfName(mix: (HashValue, Component) -> HashValue, name: Name): HashValue {
    ComputeHash(mix, name, |name|)
  }

  /** The hash of a prefix does not depend on what follows it. */
  lemma {:induction false} HashOfPrefix(mix: (HashValue, Component) -> HashValue, name: Name, prefixLen: nat, k: nat)
    requires k <= prefixLen <= |name|
    ensures ComputeHash(mix, name[..prefixLen], k) == ComputeHash(mix, name, k)
  {
    if k > 0 {
      HashOfPrefix(mix, name, prefixLen, k - 1);
    }
  }

  /** The hash of every prefix, each computed from the one before. */
  method ComputeHashes(mix: (HashValue, Component) -> HashValue, name: Name) returns (hashes: seq<HashValue>)
    ensures |hashes| == |name| + 1
    ensures forall k :: 0 <= k <= |name| ==> hashes[k] == HashOfName(mix, name[..k])
  {
    var h: HashValue := 0;
    hashes := [h];
    for i := 0 to |name|
      invariant |hashes| == i + 1 && h == ComputeHash(mix, name, i)
      invariant forall k :: 0 <= k <= i ==> hashes[k] == ComputeHash(mix, name, k)
    {
      h := mix(h, name[i]);
      hashes := hashes + [h];
    }
    forall k | 0 <= k <= |name| ensures hashes[k] == HashOfName(mix, name[..k]) {
      HashOfPrefix(mix, name, k, k);
    }
  }

  class Node {
    const name: Name
    const hash: HashValue
    var prev: Node?
    var next: Node?

    constructor (h: HashValue, name: Name)
      ensures this.name == name && this.hash == h && prev == null && next == null
    {
      this.name, this.hash := name, h;
      prev, next := null, null;
    }
  }

  function BucketOf(h: HashValue, nBuckets: nat): nat
    requires nBuckets > 0
    ensures BucketOf(h, nBuckets) < nBuckets
  {
    h % nBuckets
  }

  function At(c: seq<Node>, i: int): Node? {
    if 0 <= i < |c| then c[i] else null
  }

  /** c lists the nodes reached from head, in order, and the prev pointers lead back. */
  ghost predicate ChainOk(head: Node?, c: seq<Node>)
    reads c
  {
    head == At(c, 0) &&
    (forall i, j :: 0 <= i < j < |c| ==> c[i] != c[j]) &&
    (forall i {:trigger c[i].prev} :: 0 <= i < |c| ==> c[i].prev == At(c, i - 1)) &&
    (forall i {:trigger c[i].next} :: 0 <= i < |c| ==> c[i].next == At(c, i + 1))
  }

  ghost function NodesOf(chains: seq<seq<Node>>): set<Node> {
    set b, i | 0 <= b < |chains| && 0 <= i < |chains[b]| :: chains[b][i]
  }

  /** Every chain is a well-formed doubly linked list of nodes that hash to its bucket. */
  ghost predicate Structured(buckets: seq<Node?>, chains: seq<seq<Node>>)
    reads NodesOf(chains)
  {
    |buckets| == |chains| > 0 &&
    (forall b :: 0 <= b < |chains| ==> ChainOk(buckets[b], chains[b])) &&
    forall b, i :: 0 <= b < |chains| && 0 <= i < |chains[b]| ==> BucketOf(chains[b][i].hash, |buckets|) == b
  }

  /** expandLoadFactor 1/2 and shrinkLoadFactor 1/10 of the number of buckets. */
  function ExpandThreshold(nBuckets: nat): nat { nBuckets / 2 }

  function ShrinkThreshold(nBuckets: nat): nat { nBuckets / 10 }

  class Hashtable {
    const mix: (HashValue, Component) -> HashValue
    const minSize: nat
    var buckets: seq<Node?>
    var size: nat
    var expandThreshold: nat
    var shrinkThreshold: nat
    ghost var chains: seq<seq<Node>>
    /** The finite map from names to nodes that the table implements. */
    ghost var contents: map<Name, Node>

    ghost predicate Valid()
      reads this, NodesOf(chains)
    {
      Structured(buckets, chains) &&
      Indexed(contents, NodesOf(chains), mix) &&
      size == |contents| &&
      0 < minSize <= |buckets| &&
      expandThreshold == ExpandThreshold(|buckets|) && shrinkThreshold == ShrinkThreshold(|buckets|) &&
      size <= expandThreshold
    }

    constructor (mix: (HashValue, Component) -> HashValue, initialSize: nat)
      requires initialSize > 0
      ensures Valid() && contents == map[] && this.mix == mix && |buckets| == minSize == initialSize
    {
      this.mix, minSize := mix, initialSize;
      buckets, chains := seq(initialSize, _ => null), seq(initialSize, _ => []);
      size, contents := 0, map[];
      expandThreshold, shrinkThreshold := ExpandThreshold(initialSize), ShrinkThreshold(initialSize);
    }

    /** Puts a node at the head of a bucket's chain. */
    method Attach(bucket: nat, node: Node)
      requires Structured(buckets, chains) && node !in NodesOf(chains)
      requires bucket == BucketOf(node.hash, |buckets|)
      modifies this`buckets, this`chains, node, NodesOf(chains)
      ensures Structured(buckets, chains) && |buckets| == old(|buckets|)
      ensures chains == old(chains)[bucket := [node] + old(chains)[bucket]]
      ensures NodesOf(chains) == old(NodesOf(chains)) + {node}
    {
      hide ChainOk;
      ghost var was := chains;
      InNodesOf(was);
      LinkFront(buckets[bucket], node, was[bucket]);
      OthersDisjoint(was, bucket, |buckets|);
      buckets := buckets[bucket := node];
      chains := chains[bucket := [node] + chains[bucket]];
      NodesOfPush(was, bucket, node);
    }

    /** Takes a node out of its bucket's chain. */
    method Detach(bucket: nat, node: Node)
      requires Structured(buckets, chains) && node in NodesOf(chains)
      requires bucket == BucketOf(node.hash, |buckets|)
      modifies this`buckets, this`chains, NodesOf(chains)
      ensures Structured(buckets, chains) && |buckets| == old(|buckets|)
      ensures NodesOf(chains) == old(NodesOf(chains)) - {node}
      ensures node.prev == null && node.next == null
    {
      ghost var was := chains;
      ghost var k: nat :| k < |was[bucket]| && was[bucket][k] == node;
      TakeOut(bucket, node, k);
      NodesOfPop(was, bucket, k, |buckets|);
    }

    method TakeOut(bucket: nat, node: Node, ghost k: nat)
      requires Structured(buckets, chains)
      requires bucket < |buckets| && k < |chains[bucket]| && chains[bucket][k] == node
      modifies this`buckets, this`chains, NodesOf(chains)
      ensures Structured(buckets, chains) && |buckets| == old(|buckets|)
      ensures chains == old(chains)[bucket := Without(old(chains)[bucket], k)]
      ensures node.prev == null && node.next == null
    {
      hide ChainOk;
      InNodesOf(chains);
      OthersDisjoint(chains, bucket, |buckets|);
      ghost var c := chains[bucket];
      var head := Unlink(buckets[bucket], node, c, k);
      buckets := buckets[bucket := head];
      chains := chains[bucket := Without(c, k)];
    }

    /** Moves every node to its bucket among newNBuckets; the nodes stay the same objects. */
    method Resize(newNBuckets: nat)
      requires Structured(buckets, chains) && newNBuckets > 0
      requires expandThreshold == ExpandThreshold(|buckets|) && shrinkThreshold == ShrinkThreshold(|buckets|)
      modifies this`buckets, this`chains, this`expandThreshold, this`shrinkThreshold, NodesOf(chains)
      ensures Structured(buckets, chains) && |buckets| == newNBuckets
      ensures NodesOf(chains) == old(NodesOf(chains))
      ensures expandThreshold == ExpandThreshold(|buckets|) && shrinkThreshold == ShrinkThreshold(|buckets|)
    {
      hide ChainOk, NodesOf;
      if |buckets| == newNBuckets {
        return;
      }
      var oldBuckets := buckets;
      ghost var oldChains := chains;
      InNodesOf(oldChains);
      NodesOfSome(oldChains, 0);
      buckets, chains := seq(newNBuckets, _ => null), seq(newNBuckets, _ => []);
      EmptyChains(newNBuckets);
      for b := 0 to |oldBuckets|
        invariant Structured(buckets, chains) && |buckets| == newNBuckets
        invariant NodesOf(chains) == NodesOf(oldChains[..b])
        invariant forall j :: b <= j < |oldChains| ==> ChainOk(oldBuckets[j], oldChains[j])
      {
        EarlierDisjoint(oldChains, b, |oldBuckets|);
        NodesOfSome(oldChains, b);
        MoveChain(oldBuckets[b], oldChains[b]);
        NodesOfNext(oldChains, b);
      }
      assert oldChains[..|oldBuckets|] == oldChains;
      expandThreshold, shrinkThreshold := ExpandThreshold(newNBuckets), ShrinkThreshold(newNBuckets);
    }

    method MoveChain(head: Node?, ghost c: seq<Node>)
      requires Structured(buckets, chains) && ChainOk(head, c)
      requires forall n :: n in c ==> n !in NodesOf(chains)
      modifies this`buckets, this`chains, NodesOf(chains), c
      ensures Structured(buckets, chains) && |buckets| == old(|buckets|)
      ensures NodesOf(chains) == old(NodesOf(chains)) + set n | n in c
    {
      hide Structured, NodesOf;
      var node := head;
      ghost var i := 0;
      while node != null
        invariant i <= |c| && node == At(c, i)
        invariant Structured(buckets, chains) && |buckets| == old(|buckets|)
        invariant NodesOf(chains) == old(NodesOf(chains)) + set n | n in c[..i]
        invariant forall k {:trigger c[k].next} :: i <= k < |c| ==> c[k].next == At(c, k + 1)
        decreases |c| - i
      {
        assert c[i] in c && c[i] !in c[..i];
        var next := node.next;
        NonEmpty(buckets, chains);
        Attach(BucketOf(node.hash, |buckets|), node);
        assert c[..i + 1] == c[..i] + [c[i]];
        node, i := next, i + 1;
      }
      assert c[..i] == c;
    }

    /** Finds the node of the first prefixLen components, or makes one. */
    method FindOrInsert(name: Name, prefixLen: nat, h: HashValue, allowInsert: bool) returns (node: Node?, isNew: bool)
      requires Valid() && prefixLen <= |name| && h == HashOfName(mix, name[..prefixLen])
      modifies this, NodesOf(chains)
      ensures Valid()
      ensures var key := name[..prefixLen];
        if key in old(contents) then !isNew && node == old(contents)[key] && contents == old(contents)
        else if !allowInsert then !isNew && node == null && contents == old(contents)
        else isNew && node != null && fresh(node) && contents == old(contents)[key := node]
      ensures |buckets| == if isNew && |contents| > old(|buckets|) / 2 then 2 * old(|buckets|) else old(|buckets|)
      ensures forall n :: n in NodesOf(chains) ==> n in old(NodesOf(chains)) || fresh(n)
    {
      hide HashOfName;
      var bucket := BucketOf(h, |buckets|);
      node := Search(name, prefixLen, h, bucket);
      if node != null {
        return node, false;
      }
      if !allowInsert {
        return null, false;
      }
      node := new Node(h, name[..prefixLen]);
      InsertNode(node, bucket);
      isNew := true;
    }

    /** Walks one bucket's chain. */
    method Search(name: Name, prefixLen: nat, h: HashValue, bucket: nat) returns (node: Node?)
      requires Valid() && prefixLen <= |name| && h == HashOfName(mix, name[..prefixLen])
      requires bucket == BucketOf(h, |buckets|)
      ensures node == if name[..prefixLen] in contents then contents[name[..prefixLen]] else null
    {
      hide HashOfName;
      ghost var c := chains[bucket];
      ghost var i := 0;
      node := buckets[bucket];
      while node != null
        invariant i <= |c| && node == At(c, i)
        invariant forall j :: 0 <= j < i ==> c[j].hash != h || c[j].name != name[..prefixLen]
        decreases |c| - i
      {
        if node.hash == h && node.name == name[..prefixLen] {
          IsIndexed(contents, chains, mix, bucket, i);
          return;
        }
        node, i := node.next, i + 1;
      }
      IfIndexed(contents, chains, mix, name[..prefixLen], bucket, |buckets|);
    }

    method InsertNode(node: Node, bucket: nat)
      requires Valid() && node !in NodesOf(chains) && node.name !in contents
      requires node.hash == HashOfName(mix, node.name) && bucket == BucketOf(node.hash, |buckets|)
      modifies this, NodesOf(chains), node
      ensures Valid() && contents == old(contents)[node.name := node]
      ensures NodesOf(chains) == old(NodesOf(chains)) + {node}
      ensures |buckets| == if |contents| > old(|buckets|) / 2 then 2 * old(|buckets|) else old(|buckets|)
    {
      hide HashOfName, Structured, NodesOf, Indexed;
      NonEmpty(buckets, chains);
      Put(contents, NodesOf(chains), mix, node);
      Attach(bucket, node);
      contents := contents[node.name := node];
      size := size + 1;
      if size > expandThreshold {
        Resize(2 * |buckets|);
      }
    }

    method Find(name: Name, prefixLen: nat) returns (node: Node?)
      requires Valid() && prefixLen <= |name|
      ensures node == if name[..prefixLen] in contents then contents[name[..prefixLen]] else null
    {
      node := Search(name, prefixLen, HashOfName(mix, name[..prefixLen]),
                     BucketOf(HashOfName(mix, name[..prefixLen]), |buckets|));
    }

    /** The same with the hash at hand, as from ComputeHashes. */
    method FindHashed(name: Name, prefixLen: nat, h: HashValue) returns (node: Node?)
      requires Valid() && prefixLen <= |name| && h == HashOfName(mix, name[..prefixLen])
      ensures node == if name[..prefixLen] in contents then contents[name[..prefixLen]] else null
      ensures node != null ==> node.name == name[..prefixLen]
    {
      node := Search(name, prefixLen, h, BucketOf(h, |buckets|));
    }

    /** Takes a node out of the table. */
    method Erase(node: Node)
      requires Valid() && node in NodesOf(chains)
      modifies this, NodesOf(chains)
      ensures Valid()
      ensures node.name in old(contents) && old(contents)[node.name] == node
      ensures contents == old(contents) - {node.name}
      ensures NodesOf(chains) == old(NodesOf(chains)) - {node}
      ensures |buckets| ==
        if |contents| >= old(|buckets|) / 10 then old(|buckets|)
        else if minSize < old(|buckets|) / 2 then old(|buckets|) / 2
        else minSize
    {
      hide HashOfName, Structured, NodesOf, Indexed;
      NonEmpty(buckets, chains);
      Drop(contents, NodesOf(chains), mix, node);
      Detach(BucketOf(node.hash, |buckets|), node);
      contents := contents - {node.name};
      size := size - 1;
      if size < shrinkThreshold {
        Resize(if minSize < |buckets| / 2 then |buckets| / 2 else minSize);
      }
    }
  }

  lemma Put(m: map<Name, Node>, nodes: set<Node>, mix: (HashValue, Component) -> HashValue, node: Node)
    requires Indexed(m, nodes, mix) && node.name !in m && node.hash == HashOfName(mix, node.name)
    ensures Indexed(m[node.name := node], nodes + {node}, mix) && |m[node.name := node]| == |m| + 1
  {
    hide HashOfName;
    var after := m[node.name := node];
    assert forall n :: n in m ==> n in after && after[n] == m[n];
    assert node.name in after && after[node.name] == node;
  }

  lemma Drop(m: map<Name, Node>, nodes: set<Node>, mix: (HashValue, Component) -> HashValue, node: Node)
    requires Indexed(m, nodes, mix) && node in nodes
    ensures node.name in m && m[node.name] == node
    ensures Indexed(m - {node.name}, nodes - {node}, mix) && |m - {node.name}| == |m| - 1
  {
    hide HashOfName;
    var after := m - {node.name};
    assert forall n :: n in after ==> after[n] == m[n];
    assert forall n :: n in m && n != node.name ==> n in after;
    assert m.Keys == after.Keys + {node.name};
    assert |m.Keys| == |after.Keys| + 1;
  }

  lemma IsIndexed(contents: map<Name, Node>, chains: seq<seq<Node>>, mix: (HashValue, Component) -> HashValue, b: nat, i: nat)
    requires Indexed(contents, NodesOf(chains), mix) && b < |chains| && i < |chains[b]|
    ensures var n := chains[b][i]; n.name in contents && contents[n.name] == n
  {
    assert chains[b][i] in NodesOf(chains);
  }

  ghost predicate HasNode(c: seq<Node>, h: HashValue, name: Name) {
    exists i :: 0 <= i < |c| && c[i].hash == h && c[i].name == name
  }

  /** A name in the map has its node in the chain its hash selects. */
  lemma IfIndexed(contents: map<Name, Node>, chains: seq<seq<Node>>, mix: (HashValue, Component) -> HashValue,
                  name: Name, bucket: nat, nBuckets: nat)
    requires Indexed(contents, NodesOf(chains), mix) && 0 < nBuckets && bucket == BucketOf(HashOfName(mix, name), nBuckets)
    requires forall b, i :: 0 <= b < |chains| && 0 <= i < |chains[b]| ==> BucketOf(chains[b][i].hash, nBuckets) == b
    ensures name in contents ==> bucket < |chains| && HasNode(chains[bucket], HashOfName(mix, name), name)
  {
    if name in contents {
      assert contents[name] in contents.Values;
      var b, i :| 0 <= b < |chains| && 0 <= i < |chains[b]| && chains[b][i] == contents[name];
    }
  }

  lemma NonEmpty(buckets: seq<Node?>, chains: seq<seq<Node>>)
    requires Structured(buckets, chains)
    ensures |buckets| > 0
  {
  }

  lemma EmptyChains(n: nat)
    requires n > 0
    ensures Structured(seq(n, _ => null), seq(n, _ => []))
    ensures NodesOf(seq(n, _ => [])) == {}
  {
  }

  lemma EarlierDisjoint(chains: seq<seq<Node>>, b: nat, nBuckets: nat)
    requires 0 < nBuckets && b < |chains|
    requires forall b, i :: 0 <= b < |chains| && 0 <= i < |chains[b]| ==> BucketOf(chains[b][i].hash, nBuckets) == b
    ensures forall j, n :: b <= j < |chains| && n in chains[j] ==> n !in NodesOf(chains[..b])
    ensures forall j, n :: b < j < |chains| && n in chains[j] ==> n !in chains[b]
  {
  }

  lemma NodesOfNext(chains: seq<seq<Node>>, b: nat)
    requires b < |chains|
    ensures NodesOf(chains[..b + 1]) == NodesOf(chains[..b]) + set n | n in chains[b]
  {
    forall j, i | 0 <= j < b && 0 <= i < |chains[j]| ensures chains[j][i] in NodesOf(chains[..b + 1]) {
      assert chains[..b + 1][j][i] == chains[j][i];
    }
    forall i | 0 <= i < |chains[b]| ensures chains[b][i] in NodesOf(chains[..b + 1]) {
      assert chains[..b + 1][b][i] == chains[b][i];
    }
    forall j, i | 0 <= j < b + 1 && 0 <= i < |chains[j]|
      ensures chains[j][i] in NodesOf(chains[..b]) || chains[j][i] in chains[b]
    {
      assert j < b ==> chains[..b][j][i] == chains[j][i];
    }
  }

  /** The pointer updates of an insertion at the head of a chain. */
  method LinkFront(head: Node?, node: Node, ghost c: seq<Node>)
    requires ChainOk(head, c) && node !in c
    modifies node, c
    ensures ChainOk(node, [node] + c)
  {
    node.prev := null;
    node.next := head;
    if node.next != null {
      node.next.prev := node;
    }
    ghost var d := [node] + c;
    forall i | 0 <= i < |d| ensures d[i].prev == At(d, i - 1) && d[i].next == At(d, i + 1) {
      if i > 0 {
        assert d[i] == c[i - 1] && c[i - 1] in c;
        assert At(d, i + 1) == At(c, i);
      }
    }
  }

  /** The pointer updates of a removal; the head of the chain changes when its first node goes. */
  method Unlink(head: Node?, node: Node, ghost c: seq<Node>, ghost k: nat) returns (newHead: Node?)
    requires ChainOk(head, c) && k < |c| && c[k] == node
    modifies c
    ensures ChainOk(newHead, Without(c, k))
    ensures node.prev == null && node.next == null
  {
    assert k > 0 ==> c[k - 1] in c;
    assert k + 1 < |c| ==> c[k + 1] in c;
    assert c[k].prev == At(c, k - 1) && c[k].next == At(c, k + 1);
    newHead := head;
    if node.prev != null {
      node.prev.next := node.next;
    } else {
      newHead := node.next;
    }
    if node.next != null {
      node.next.prev := node.prev;
    }
    node.prev, node.next := null, null;
    assert forall o {:trigger c[o].prev} :: 0 <= o < |c| && o != k ==> c[o].prev == At(c, if o == k + 1 then k - 1 else o - 1);
    assert forall o {:trigger c[o].next} :: 0 <= o < |c| && o != k ==> c[o].next == At(c, if o == k - 1 then k + 1 else o + 1);
    Unlinked(newHead, c, k);
  }

  function Without(c: seq<Node>, k: nat): (d: seq<Node>)
    requires k < |c|
    ensures |d| == |c| - 1
    ensures forall i :: 0 <= i < |d| ==> d[i] == c[if i < k then i else i + 1]
  {
    c[..k] + c[k + 1..]
  }

  /** Skipping one node on both sides leaves a well-formed chain of the others. */
  lemma Unlinked(head: Node?, c: seq<Node>, k: nat)
    requires k < |c| && forall i, j :: 0 <= i < j < |c| ==> c[i] != c[j]
    requires forall o {:trigger c[o].prev} :: 0 <= o < |c| && o != k ==> c[o].prev == At(c, if o == k + 1 then k - 1 else o - 1)
    requires forall o {:trigger c[o].next} :: 0 <= o < |c| && o != k ==> c[o].next == At(c, if o == k - 1 then k + 1 else o + 1)
    requires head == At(c, if k == 0 then 1 else 0)
    ensures ChainOk(head, Without(c, k))
  {
    var d := Without(c, k);
    forall i | 0 <= i < |d| ensures d[i].prev == At(d, i - 1) && d[i].next == At(d, i + 1) {
      assert d[i] == c[if i < k then i else i + 1];
    }
  }

  /** Chains of different buckets share no node. */
  lemma OthersDisjoint(chains: seq<seq<Node>>, bucket: nat, nBuckets: nat)
    requires 0 < nBuckets && bucket < |chains|
    requires forall b, i :: 0 <= b < |chains| && 0 <= i < |chains[b]| ==> BucketOf(chains[b][i].hash, nBuckets) == b
    ensures forall b, n :: 0 <= b < |chains| && b != bucket && n in chains[b] ==> n !in chains[bucket]
  {
  }

  lemma InNodesOf(chains: seq<seq<Node>>)
    ensures forall b, i :: 0 <= b < |chains| && 0 <= i < |chains[b]| ==> chains[b][i] in NodesOf(chains)
  {
  }

  lemma NodesOfSome(chains: seq<seq<Node>>, b: nat)
    requires b <= |chains|
    ensures NodesOf(chains[..b]) <= NodesOf(chains) && NodesOf(chains[..0]) == {}
  {
  }

  lemma NodesOfPush(chains: seq<seq<Node>>, bucket: nat, node: Node)
    requires bucket < |chains|
    ensures NodesOf(chains[bucket := [node] + chains[bucket]]) == NodesOf(chains) + {node}
  {
    var after := chains[bucket := [node] + chains[bucket]];
    assert after[bucket][0] == node;
    forall b, i | 0 <= b < |chains| && 0 <= i < |chains[b]| ensures chains[b][i] in NodesOf(after) {
      if b == bucket {
        assert after[b][i + 1] == chains[b][i];
      } else {
        assert after[b][i] == chains[b][i];
      }
    }
  }

  lemma NodesOfPop(chains: seq<seq<Node>>, bucket: nat, k: nat, nBuckets: nat)
    requires 0 < nBuckets && bucket < |chains| && k < |chains[bucket]|
    requires forall b, i :: 0 <= b < |chains| && 0 <= i < |chains[b]| ==> BucketOf(chains[b][i].hash, nBuckets) == b
    requires forall i, j :: 0 <= i < j < |chains[bucket]| ==> chains[bucket][i] != chains[bucket][j]
    ensures var c := chains[bucket];
      NodesOf(chains[bucket := Without(c, k)]) == NodesOf(chains) - {c[k]}
  {
    var c := chains[bucket];
    var after := chains[bucket := Without(c, k)];
    forall b, i | 0 <= b < |chains| && 0 <= i < |chains[b]| && chains[b][i] != c[k]
      ensures chains[b][i] in NodesOf(after)
    {
      if b == bucket {
        assert chains[b][i] == after[b][if i < k then i else i - 1];
      } else {
        assert after[b][i] == chains[b][i];
      }
    }
    forall b, i | 0 <= b < |after| && 0 <= i < |after[b]|
      ensures after[b][i] in NodesOf(chains) - {c[k]}
    {
      if b == bucket {
        assert after[b][i] == chains[b][if i < k then i else i + 1];
      } else {
        assert after[b][i] == chains[b][i];
      }
    }
  }

  /** The map and the chains hold the same nodes, each under its own name and hash. */
  ghost predicate Indexed(contents: map<Name, Node>, nodes: set<Node>, mix: (HashValue, Component) -> HashValue) {
    nodes == contents.Values &&
    forall name :: name in contents ==> contents[name].name == name && contents[name].hash == HashOfName(mix, name)
  }
}
