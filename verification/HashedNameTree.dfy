/** The name tree with its hash table (table/name-tree.cpp): the table holds a node for each entry of
    the tree, under the same name, through creation and erasure, so that a search by hash is a search
    of the tree. */
module HashedNameTree {
  import opened Common
  import opened Names
  import opened NameTree
  import opened NameTreeSearch
  import H = Hashtable

  class HashedNameTree {
    const ht: H.Hashtable
    const tree: NameTree

    /** Tree and table have the same names. */
    ghost predicate Valid()
      reads this, tree, ht, H.NodesOf(ht.chains)
    {
      ht.Valid() && LinksOk(tree.nodes) && ht.contents.Keys == tree.nodes.Keys
    }

    constructor (mix: (H.HashValue, Component) -> H.HashValue, nBuckets: nat)
      requires nBuckets > 0
      ensures Valid() && tree.nodes == map[] && fresh(ht) && fresh(tree)
    {
      ht := new H.Hashtable(mix, nBuckets);
      tree := new NameTree();
    }

    /** Finds or makes node and entry of one prefix. */
    method Grow(name: Name, prefixLen: nat, h: H.HashValue, parent: Option<Name>)
      requires Valid() && prefixLen <= |name| && h == H.HashOfName(ht.mix, name[..prefixLen])
      requires var key := name[..prefixLen];
        if key == [] then parent.None? else parent == Some(Parent(key)) && Parent(key) in tree.nodes
      modifies tree, ht, H.NodesOf(ht.chains)
      ensures Valid() && tree.nodes == if name[..prefixLen] in old(tree.nodes) then old(tree.nodes) else Link(old(tree.nodes), name[..prefixLen])
      ensures forall n :: n in old(ht.contents) ==> n in ht.contents && ht.contents[n] == old(ht.contents)[n]
      ensures forall n :: n in H.NodesOf(ht.chains) ==> n in old(H.NodesOf(ht.chains)) || fresh(n)
    {
      hide LinksOk, H.HashOfName, H.Structured, H.Indexed, Link;
      var key := name[..prefixLen];
      var _, isNew := ht.FindOrInsert(name, prefixLen, h, true);
      if isNew {
        LinkKeys(tree.nodes, key);
        tree.AddEntry(key, parent);
      }
    }

    /** Finds or makes the nodes and entries of all prefixes, shortest first; nodes that are there stay
        the same. */
    method LookupEntry(name: Name)
      requires Valid()
      modifies tree, ht, H.NodesOf(ht.chains)
      ensures Valid() && tree.nodes == Lookup(old(tree.nodes), name)
      ensures forall n :: n in old(ht.contents) ==> n in ht.contents && ht.contents[n] == old(ht.contents)[n]
    {
      hide LinksOk, H.HashOfName, H.Structured, H.Indexed, Lookup, Link;
      var hashes := H.ComputeHashes(ht.mix, name);
      var parent: Option<Name> := None;
      for prefixLen := 0 to |name| + 1
        invariant Valid()
        invariant prefixLen == 0 ==> tree.nodes == old(tree.nodes) && parent == None
        invariant prefixLen > 0 ==>
          tree.nodes == Lookup(old(tree.nodes), name[..prefixLen - 1]) && parent == Some(name[..prefixLen - 1])
        invariant forall n :: n in old(ht.contents) ==> n in ht.contents && ht.contents[n] == old(ht.contents)[n]
        invariant forall n :: n in H.NodesOf(ht.chains) ==> n in old(H.NodesOf(ht.chains)) || fresh(n)
      {
        LookupStep(old(tree.nodes), name, prefixLen);
        Grow(name, prefixLen, hashes[prefixLen], parent);
        parent := Some(name[..prefixLen]);
      }
      assert name[..|name|] == name;
    }

    /** Erases node and entry of one empty name. */
    method Shrink(key: Name) returns (parent: Option<Name>)
      requires Valid() && key in tree.nodes && IsEmpty(tree.nodes[key])
      modifies tree, ht, H.NodesOf(ht.chains)
      ensures LinkedUp(old(tree.nodes), key) && Valid() && tree.nodes == Unlink(old(tree.nodes), key)
      ensures if key == [] then parent.None? else parent == Some(Parent(key)) && Parent(key) in tree.nodes
      ensures ht.contents == old(ht.contents) - {key}
      ensures H.NodesOf(ht.chains) <= old(H.NodesOf(ht.chains))
    {
      hide LinksOk, H.HashOfName, H.Structured, H.NodesOf;
      assert key[..|key|] == key;
      NodeOf(ht, key);
      hide H.Indexed;
      var node := ht.Find(key, |key|);
      parent := tree.DropEntry(key);
      assert tree.nodes.Keys == old(tree.nodes).Keys - {key} by { UnlinkKeys(old(tree.nodes), key); }
      ht.Erase(node);
    }

    /** Erases an empty name, and the ancestors that become empty. */
    method EraseEntryIfEmpty(name: Name, canEraseAncestors: bool)
      requires Valid() && name in tree.nodes
      modifies tree, ht, H.NodesOf(ht.chains)
      ensures Valid() && tree.nodes == EraseIfEmpty(old(tree.nodes), name, canEraseAncestors)
      ensures forall n :: n in ht.contents ==> n in old(ht.contents) && ht.contents[n] == old(ht.contents)[n]
    {
      hide LinksOk, H.HashOfName, H.Structured, H.Indexed, Unlink;
      var entry := Some(name);
      while entry.Some? && IsEmpty(tree.nodes[entry.value])
        invariant Valid() && (entry.Some? ==> entry.value in tree.nodes)
        invariant EraseIfEmpty(old(tree.nodes), name, canEraseAncestors) ==
          if entry.None? then tree.nodes else EraseIfEmpty(tree.nodes, entry.value, canEraseAncestors)
        invariant forall n :: n in ht.contents ==> n in old(ht.contents) && ht.contents[n] == old(ht.contents)[n]
        invariant H.NodesOf(ht.chains) <= old(H.NodesOf(ht.chains))
        decreases if entry.None? then 0 else 1 + |entry.value|
      {
        entry := Shrink(entry.value);
        if !canEraseAncestors {
          break;
        }
      }
    }

    /** Longest prefix match by hash: the node of the longest selected prefix in the tree. */
    method FindLongestPrefixMatch(name: Name, pred: EntrySelector) returns (r: H.Node?)
      requires Valid()
      ensures LongestMatch(tree.nodes, pred, name, if r == null then None else Some(r.name))
      ensures r != null ==> r.name in ht.contents && ht.contents[r.name] == r
    {
      var nodes := tree.nodes;
      var selected := (n: H.Node) => n.name in nodes && pred(nodes[n.name]);
      r := FindLongestPrefixMatchByHash(ht, name, selected);
      forall k {:trigger name[..k]} | 0 <= k <= |name| && Selected(nodes, pred, name[..k]) ensures r != null && k <= |r.name| {
        assert name[..k] in ht.contents;
        NodeOf(ht, name[..k]);
      }
    }
  }

  lemma LookupStep(nodes: Nodes, name: Name, prefixLen: nat)
    requires prefixLen <= |name|
    ensures var base := if prefixLen == 0 then nodes else Lookup(nodes, name[..prefixLen - 1]);
      (prefixLen > 0 ==> name[..prefixLen - 1] == Parent(name[..prefixLen])) &&
      Lookup(nodes, name[..prefixLen]) == if name[..prefixLen] in base then base else Link(base, name[..prefixLen])
  {
    hide Link;
    assert prefixLen > 0 ==> name[..prefixLen - 1] == Parent(name[..prefixLen]);
  }

  lemma LinkKeys(nodes: Nodes, name: Name)
    requires name !in nodes && (name == [] || Parent(name) in nodes)
    ensures Link(nodes, name).Keys == nodes.Keys + {name}
  {
  }

  lemma UnlinkKeys(nodes: Nodes, name: Name)
    requires name in nodes && (name == [] || Parent(name) in nodes)
    ensures Unlink(nodes, name).Keys == nodes.Keys - {name}
  {
  }

  lemma NodeOf(ht: H.Hashtable, name: Name)
    requires ht.Valid() && name in ht.contents
    ensures ht.contents[name].name == name && ht.contents[name] in H.NodesOf(ht.chains)
  {
    hide H.HashOfName, H.Structured;
    assert ht.contents[name] in ht.contents.Values;
  }
}
