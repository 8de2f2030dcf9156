/** Stackless enumeration of a subtree (table/name-tree-iterator.cpp): the iterator remembers the
    current entry and one bit, and finds its way by parent and child links. */
module NameTreeIterator {
  import opened Common
  import opened Names
  import opened NameTree

  /** The children of every entry. */
  type Kids = map<Name, seq<Name>>

  /** EntrySubTreeSelector: whether to visit an entry, and whether to visit below it. */
  type Selector = Name -> (bool, bool)

  function KidsOf(nodes: Nodes): (kids: Kids)
    ensures kids.Keys == nodes.Keys
  {
    map n | n in nodes :: nodes[n].children
  }

  ghost predicate KidsOk(kids: Kids) {
    forall n {:trigger KidsAt(kids, n)} :: n in kids ==> KidsAt(kids, n)
  }

  ghost predicate KidsAt(kids: Kids, n: Name)
    requires n in kids
  {
    NoDuplicates(kids[n]) &&
    (forall i {:trigger kids[n][i]} :: 0 <= i < |kids[n]| ==> kids[n][i] in kids && kids[n][i] != [] && Parent(kids[n][i]) == n) &&
    (n != [] ==> Parent(n) in kids && n in kids[Parent(n)])
  }

  lemma LinkedKids(nodes: Nodes)
    requires LinksOk(nodes)
    ensures KidsOk(KidsOf(nodes))
  {
    hide NoDuplicates;
    forall n | n in nodes ensures KidsAt(KidsOf(nodes), n) {
      LinksAt(nodes, n);
      assert forall i :: 0 <= i < |nodes[n].children| ==> nodes[n].children[i] in nodes[n].children;
    }
  }

  lemma KidOf(kids: Kids, n: Name, i: nat)
    requires KidsOk(kids) && n in kids && i < |kids[n]|
    ensures var c := kids[n][i]; c in kids && c != [] && Parent(c) == n && KidsAt(kids, c)
  {
    assert KidsAt(kids, n);
    assert KidsAt(kids, kids[n][i]);
  }

  /** Names longer than n: what is below n is among them. */
  ghost function Deeper(kids: Kids, n: Name): set<Name> {
    set m | m in kids && |m| > |n|
  }

  lemma DeeperShrinks(kids: Kids, n: Name, i: nat)
    requires KidsOk(kids) && n in kids && i < |kids[n]|
    ensures kids[n][i] in kids && Deeper(kids, kids[n][i]) < Deeper(kids, n)
  {
    KidOf(kids, n, i);
    assert kids[n][i] in Deeper(kids, n);
  }

  /** The accepted entries of the subtree at n: an entry before its descendants, children in order. */
  ghost function PreOrder(kids: Kids, sel: Selector, n: Name): seq<Name>
    requires KidsOk(kids) && n in kids
    decreases Deeper(kids, n), 1, 0
  {
    (if sel(n).0 then [n] else []) + (if sel(n).1 then PreForest(kids, sel, n, 0) else [])
  }

  /** The same for the children of n, from the i-th on. */
  ghost function PreForest(kids: Kids, sel: Selector, n: Name, i: nat): seq<Name>
    requires KidsOk(kids) && n in kids && i <= |kids[n]|
    decreases Deeper(kids, n), 0, |kids[n]| - i
  {
    if i == |kids[n]| then [] else
    DeeperShrinks(kids, n, i);
    PreOrder(kids, sel, kids[n][i]) + PreForest(kids, sel, n, i + 1)
  }

  function IndexIn(s: seq<Name>, x: Name): (i: nat)
    requires x in s
    ensures i < |s| && s[i] == x
  {
    if s[0] == x then 0 else 1 + IndexIn(s[1..], x)
  }

  lemma IndexUnique(s: seq<Name>, i: nat)
    requires NoDuplicates(s) && i < |s|
    ensures IndexIn(s, s[i]) == i
  {
  }

  /** What is left once everything at and below n has been dealt with. */
  ghost function Up(kids: Kids, sel: Selector, ref: Name, n: Name): seq<Name>
    requires KidsOk(kids) && n in kids && ref <= n
    decreases |n|
  {
    if n == ref then [] else
    assert KidsAt(kids, n);
    PreForest(kids, sel, Parent(n), IndexIn(kids[Parent(n)], n) + 1) + Up(kids, sel, ref, Parent(n))
  }

  /** What is left at n, with its children still to be visited or not. */
  ghost function After(kids: Kids, sel: Selector, ref: Name, n: Name, wantChildren: bool): seq<Name>
    requires KidsOk(kids) && n in kids && ref <= n
  {
    (if wantChildren then PreForest(kids, sel, n, 0) else []) + Up(kids, sel, ref, n)
  }

  /** Visiting one entry: it comes first if it is wanted, then what is below and behind it. */
  ghost function Visit(kids: Kids, sel: Selector, ref: Name, n: Name): seq<Name>
    requires KidsOk(kids) && n in kids && ref <= n
  {
    (if sel(n).0 then [n] else []) + After(kids, sel, ref, n, sel(n).1)
  }

  lemma UpAtKid(kids: Kids, sel: Selector, ref: Name, n: Name, i: nat)
    requires KidsOk(kids) && n in kids && ref <= n && i < |kids[n]|
    ensures var c := kids[n][i];
      c in kids && ref <= c && c != ref &&
      Up(kids, sel, ref, c) == PreForest(kids, sel, n, i + 1) + Up(kids, sel, ref, n)
  {
    hide NoDuplicates;
    KidOf(kids, n, i);
    assert KidsAt(kids, n);
    IndexUnique(kids[n], i);
  }

  /** From n down to its i-th child, everything before it being dealt with. */
  lemma ToKid(kids: Kids, sel: Selector, ref: Name, n: Name, i: nat)
    requires KidsOk(kids) && n in kids && ref <= n && i < |kids[n]|
    ensures var c := kids[n][i];
      c in kids && ref <= c &&
      PreForest(kids, sel, n, i) + Up(kids, sel, ref, n) == Visit(kids, sel, ref, c)
  {
    UpAtKid(kids, sel, ref, n, i);
    var c := kids[n][i];
    var self := if sel(c).0 then [c] else [];
    var below := if sel(c).1 then PreForest(kids, sel, c, 0) else [];
    var rest, up := PreForest(kids, sel, n, i + 1), Up(kids, sel, ref, n);
    assert PreForest(kids, sel, n, i) == (self + below) + rest;
    ConcatAssociative(self + below, rest, up);
    ConcatAssociative(self, below, rest + up);
  }

  const ALL: Selector := n => (true, true)

  /** How much there is still to walk over; the enumeration gets less with every visit. */
  ghost function Left(kids: Kids, ref: Name, n: Name, wantChildren: bool): nat
    requires KidsOk(kids) && n in kids && ref <= n
  {
    |After(kids, ALL, ref, n, wantChildren)|
  }

  lemma LeftAtKid(kids: Kids, ref: Name, n: Name, i: nat, wantChildren: bool)
    requires KidsOk(kids) && n in kids && ref <= n && i < |kids[n]|
    ensures var c := kids[n][i];
      c in kids && ref <= c &&
      Left(kids, ref, c, wantChildren) < |PreForest(kids, ALL, n, i) + Up(kids, ALL, ref, n)|
  {
    ToKid(kids, ALL, ref, n, i);
  }

  lemma PreForestEnd(kids: Kids, sel: Selector, n: Name)
    requires KidsOk(kids) && n in kids
    ensures PreForest(kids, sel, n, |kids[n]|) == []
  {
  }

  datatype Iterator = Iterator(entry: Option<Name>, ref: Option<Name>, state: bool)

  const END: Iterator := Iterator(None, None, false)

  ghost predicate Usable(nodes: Nodes, i: Iterator) {
    (i.ref.Some? ==> i.ref.value in nodes) &&
    (i.entry.Some? ==> i.entry.value in nodes && i.ref.Some? && i.ref.value <= i.entry.value)
  }

  /** What an iterator has still to produce. */
  ghost function Rest(kids: Kids, sel: Selector, i: Iterator): seq<Name>
    requires KidsOk(kids)
    requires i.ref.Some? ==> i.ref.value in kids
    requires i.entry.Some? ==> i.entry.value in kids && i.ref.Some? && i.ref.value <= i.entry.value
  {
    if i.entry.Some? then After(kids, sel, i.ref.value, i.entry.value, i.state)
    else if i.ref.Some? then PreOrder(kids, sel, i.ref.value)
    else []
  }

  /** One step of the enumeration: on to the next accepted entry in pre-order, or to the end. */
  method Advance(nodes: Nodes, pred: Selector, i: Iterator) returns (r: Iterator)
    requires LinksOk(nodes) && Usable(nodes, i)
    ensures KidsOk(KidsOf(nodes)) && Usable(nodes, r)
    ensures var rest := Rest(KidsOf(nodes), pred, i);
      if rest == [] then r == END
      else r.ref == i.ref && r.entry == Some(rest[0]) && Rest(KidsOf(nodes), pred, r) == rest[1..]
  {
    LinkedKids(nodes);
    ghost var kids := KidsOf(nodes);
    ghost var rest := Rest(kids, pred, i);
    if i.ref.None? {
      return END;
    }
    var ref := i.ref.value;
    var entry, wantChildren := ref, i.state;
    if i.entry.None? {
      var (wantSelf, down) := pred(ref);
      wantChildren := down;
      assert After(kids, pred, ref, ref, down) == if down then PreForest(kids, pred, ref, 0) else [];
      assert rest == Visit(kids, pred, ref, ref);
      if wantSelf {
        return Iterator(Some(ref), Some(ref), down);
      }
      assert rest == After(kids, pred, ref, ref, down);
    } else {
      entry := i.entry.value;
    }
    r := Walk(nodes, pred, ref, entry, wantChildren);
  }

  /** The pre-order walk: down to the first child where children are wanted, else on to the next
      sibling, else up. */
  method Walk(nodes: Nodes, pred: Selector, ref: Name, start: Name, down: bool) returns (r: Iterator)
    requires LinksOk(nodes) && ref in nodes && start in nodes && ref <= start
    ensures KidsOk(KidsOf(nodes)) && Usable(nodes, r)
    ensures var rest := After(KidsOf(nodes), pred, ref, start, down);
      if rest == [] then r == END
      else r.ref == Some(ref) && r.entry == Some(rest[0]) && Rest(KidsOf(nodes), pred, r) == rest[1..]
  {
    LinkedKids(nodes);
    ghost var kids := KidsOf(nodes);
    ghost var rest := After(kids, pred, ref, start, down);
    var entry, wantChildren := start, down;
    while entry != ref || (wantChildren && nodes[entry].children != [])
      invariant entry in nodes && ref <= entry
      invariant rest == After(kids, pred, ref, entry, wantChildren)
      decreases Left(kids, ref, entry, wantChildren), |entry|
    {
      hide KidsOk, LinksOk, PreForest, KidsOf;
      if wantChildren && nodes[entry].children != [] {
        var accepted;
        accepted, entry, wantChildren := FirstChild(nodes, pred, ref, entry);
        if accepted {
          return Iterator(Some(entry), Some(ref), wantChildren);
        }
      } else {
        var accepted;
        accepted, entry, wantChildren := NextSibling(nodes, pred, ref, entry, wantChildren);
        if accepted {
          return Iterator(Some(entry), Some(ref), wantChildren);
        }
      }
    }
    assert rest == [];
    return END;
  }

  /** Visits the first child. */
  method FirstChild(nodes: Nodes, pred: Selector, ref: Name, parent: Name)
    returns (accepted: bool, entry: Name, wantChildren: bool)
    requires LinksOk(nodes) && KidsOk(KidsOf(nodes))
    requires parent in nodes && ref <= parent && nodes[parent].children != []
    ensures entry in nodes && ref <= entry
    ensures var kids := KidsOf(nodes);
      After(kids, pred, ref, parent, true) ==
        (if accepted then [entry] else []) + After(kids, pred, ref, entry, wantChildren) &&
      Left(kids, ref, entry, wantChildren) < Left(kids, ref, parent, true)
  {
    ghost var kids := KidsOf(nodes);
    entry := nodes[parent].children[0];
    var (self, down) := pred(entry);
    accepted, wantChildren := self, down;
    ToKid(kids, pred, ref, parent, 0);
    LeftAtKid(kids, ref, parent, 0, wantChildren);
  }

  /** Visits the siblings behind `from` until one is accepted or wants its children visited;
      when there is none, goes up. */
  method NextSibling(nodes: Nodes, pred: Selector, ref: Name, from: Name, ghost down: bool)
    returns (accepted: bool, entry: Name, wantChildren: bool)
    requires LinksOk(nodes) && KidsOk(KidsOf(nodes))
    requires from in nodes && ref <= from && from != ref && (down ==> nodes[from].children == [])
    ensures entry in nodes && ref <= entry
    ensures var kids := KidsOf(nodes);
      After(kids, pred, ref, from, down) ==
        (if accepted then [entry] else []) + After(kids, pred, ref, entry, wantChildren) &&
      (Left(kids, ref, entry, wantChildren) < Left(kids, ref, from, down) ||
       (Left(kids, ref, entry, wantChildren) == Left(kids, ref, from, down) && |entry| < |from|))
  {
    hide PreForest, Up, NoDuplicates;
    ghost var kids := KidsOf(nodes);
    LinksAt(nodes, from);
    assert KidsAt(kids, Parent(from));
    var parent := nodes[from].parent.value;
    var siblings := nodes[parent].children;
    var sibling := IndexIn(siblings, from) + 1;
    if down {
      PreForestEnd(kids, pred, from);
      PreForestEnd(kids, ALL, from);
    }
    UpAtKid(kids, pred, ref, parent, sibling - 1);
    UpAtKid(kids, ALL, ref, parent, sibling - 1);
    entry, wantChildren := from, false;
    ghost var rest := After(kids, pred, ref, from, down);
    assert rest == PreForest(kids, pred, parent, sibling) + Up(kids, pred, ref, parent);
    ghost var left := Left(kids, ref, from, down);
    assert left == |PreForest(kids, ALL, parent, sibling) + Up(kids, ALL, ref, parent)|;
    while sibling < |siblings|
      invariant sibling <= |siblings|
      invariant rest == PreForest(kids, pred, parent, sibling) + Up(kids, pred, ref, parent)
      invariant |PreForest(kids, ALL, parent, sibling) + Up(kids, ALL, ref, parent)| <= left
    {
      entry := siblings[sibling];
      var (self, below) := pred(entry);
      ToKid(kids, pred, ref, parent, sibling);
      LeftAtKid(kids, ref, parent, sibling, below);
      UpAtKid(kids, pred, ref, parent, sibling);
      LeftAtKid(kids, ref, parent, sibling, false);
      UpAtKid(kids, ALL, ref, parent, sibling);
      if self || below {
        return self, entry, below;
      }
      sibling := sibling + 1;
    }
    PreForestEnd(kids, pred, parent);
    PreForestEnd(kids, ALL, parent);
    return false, parent, false;
  }

  /** Accepted and reached: every entry from n down to m, m excepted, wants its children visited. */
  ghost predicate Accepted(kids: Kids, sel: Selector, n: Name, m: Name) {
    m in kids && n <= m && sel(m).0 && forall k {:trigger m[..k]} :: |n| <= k < |m| ==> sel(m[..k]).1
  }

  /** The enumeration visits exactly the accepted entries that no selector cut off. */
  lemma {:induction false} PreOrderMembers(kids: Kids, sel: Selector, n: Name, m: Name)
    requires KidsOk(kids) && n in kids
    ensures m in PreOrder(kids, sel, n) <==> Accepted(kids, sel, n, m)
    decreases Deeper(kids, n), 1, 0
  {
    PreForestMembers(kids, sel, n, 0, m);
    AcceptedBelow(kids, sel, n, m);
  }

  lemma {:induction false} PreForestMembers(kids: Kids, sel: Selector, n: Name, i: nat, m: Name)
    requires KidsOk(kids) && n in kids && i <= |kids[n]|
    ensures m in PreForest(kids, sel, n, i) <==> exists j :: i <= j < |kids[n]| && Accepted(kids, sel, kids[n][j], m)
    decreases Deeper(kids, n), 0, |kids[n]| - i
  {
    hide Accepted, KidsOk;
    if i < |kids[n]| {
      DeeperShrinks(kids, n, i);
      PreOrderMembers(kids, sel, kids[n][i], m);
      PreForestMembers(kids, sel, n, i + 1, m);
    }
  }

  lemma AcceptedBelow(kids: Kids, sel: Selector, n: Name, m: Name)
    requires KidsOk(kids) && n in kids
    ensures Accepted(kids, sel, n, m) <==>
      (m == n && sel(n).0) ||
      (sel(n).1 && exists j :: 0 <= j < |kids[n]| && Accepted(kids, sel, kids[n][j], m))
  {
    hide NoDuplicates;
    if Accepted(kids, sel, n, m) && m != n {
      assert m[..|n|] == n;
      var c := m[..|n| + 1];
      KidsPrefixClosed(kids, m, |n| + 1);
      assert KidsAt(kids, c) && Parent(c) == n;
      var j := IndexIn(kids[n], c);
      assert Accepted(kids, sel, kids[n][j], m);
    }
    forall j | 0 <= j < |kids[n]| && Accepted(kids, sel, kids[n][j], m) && sel(n).1 ensures Accepted(kids, sel, n, m) {
      KidOf(kids, n, j);
      assert m[..|n|] == n;
    }
  }

  lemma {:induction false} KidsPrefixClosed(kids: Kids, m: Name, k: nat)
    requires KidsOk(kids) && m in kids && k <= |m|
    ensures m[..k] in kids
  {
    if k == |m| {
      assert m[..k] == m;
    } else {
      assert KidsAt(kids, m);
      KidsPrefixClosed(kids, Parent(m), k);
      assert Parent(m)[..k] == m[..k];
    }
  }

  /** Each accepted entry is visited once. */
  lemma {:induction false} PreOrderDistinct(kids: Kids, sel: Selector, n: Name)
    requires KidsOk(kids) && n in kids
    ensures NoDuplicates(PreOrder(kids, sel, n))
    decreases Deeper(kids, n), 1, 0
  {
    PreForestDistinct(kids, sel, n, 0);
    if sel(n).0 && sel(n).1 {
      var below := PreForest(kids, sel, n, 0);
      PreForestMembers(kids, sel, n, 0, n);
      assert n !in below by {
        forall j | 0 <= j < |kids[n]| ensures !Accepted(kids, sel, kids[n][j], n) {
          KidOf(kids, n, j);
        }
      }
    }
  }

  lemma {:induction false} PreForestDistinct(kids: Kids, sel: Selector, n: Name, i: nat)
    requires KidsOk(kids) && n in kids && i <= |kids[n]|
    ensures NoDuplicates(PreForest(kids, sel, n, i))
    decreases Deeper(kids, n), 0, |kids[n]| - i
  {
    if i < |kids[n]| {
      DeeperShrinks(kids, n, i);
      var c := kids[n][i];
      PreOrderDistinct(kids, sel, c);
      PreForestDistinct(kids, sel, n, i + 1);
      forall m | m in PreOrder(kids, sel, c) ensures m !in PreForest(kids, sel, n, i + 1) {
        PreOrderMembers(kids, sel, c, m);
        PreForestMembers(kids, sel, n, i + 1, m);
        forall j | i + 1 <= j < |kids[n]| ensures !Accepted(kids, sel, kids[n][j], m) {
          SiblingsDiverge(kids, n, i, j, m);
        }
      }
      DisjointConcat(PreOrder(kids, sel, c), PreForest(kids, sel, n, i + 1));
    }
  }

  lemma SiblingsDiverge(kids: Kids, n: Name, i: nat, j: nat, m: Name)
    requires KidsOk(kids) && n in kids && i < j < |kids[n]| && kids[n][i] <= m
    ensures !(kids[n][j] <= m)
  {
    KidOf(kids, n, i);
    KidOf(kids, n, j);
    assert KidsAt(kids, n);
    assert |kids[n][i]| == |kids[n][j]| == |n| + 1;
    assert kids[n][i] == m[..|n| + 1];
    assert kids[n][j] != m[..|n| + 1];
  }
}
