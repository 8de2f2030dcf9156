/** Content Store lookup (table/cs.cpp, find and below; table/cs-entry.cpp, canSatisfy) over the
    ordered index. */
module CsLookup {
  import opened Common
  import opened Names
  import opened CsOrder

  /** A stored packet; staleTime is absent when the packet never becomes stale. */
  datatype Entry = Entry(data: Data, unsolicited: bool, staleTime: Option<int>)

  /** An Interest as the Content Store sees it: `selects` stands for the selectors other than
      ChildSelector and MustBeFresh. */
  datatype Interest = Interest(name: Name, rightmost: bool, mustBeFresh: bool, selects: Data -> bool)

  predicate IsStale(e: Entry, now: int) {
    e.staleTime.Some? && e.staleTime.value < now
  }

  predicate CanSatisfy(e: Entry, interest: Interest, now: int) {
    interest.name <= FullName(e.data) && interest.selects(e.data) && !(interest.mustBeFresh && IsStale(e, now))
  }

  /** The index: strictly ascending. */
  ghost predicate Sorted(table: seq<Entry>) {
    (forall i :: 0 <= i < |table| ==> NoDigest(table[i].data.name)) &&
    forall i, j :: 0 <= i < j < |table| ==> Less(Stored(table[i].data), Stored(table[j].data))
  }

  function NameAt(table: seq<Entry>, i: int): Name
    requires 0 <= i < |table|
  {
    FullName(table[i].data)
  }

  lemma Ascending(table: seq<Entry>, i: int, j: int)
    requires Sorted(table) && 0 <= i <= j < |table|
    ensures Compare(NameAt(table, i), NameAt(table, j)) <= 0
    ensures i < j ==> Compare(NameAt(table, i), NameAt(table, j)) < 0
  {
    if i < j {
      LessIsCanonical(Stored(table[i].data), Stored(table[j].data));
    } else {
      CompareAntisymmetric(NameAt(table, i), NameAt(table, j));
    }
  }

  function LowerBoundFrom(table: seq<Entry>, key: Key, k: nat): (r: nat)
    requires k <= |table|
    ensures k <= r <= |table|
    ensures forall i :: k <= i < r ==> Less(Stored(table[i].data), key)
    ensures r < |table| ==> !Less(Stored(table[r].data), key)
    decreases |table| - k
  {
    if k == |table| || !Less(Stored(table[k].data), key) then k else LowerBoundFrom(table, key, k + 1)
  }

  /** The first entry not below the key. */
  function LowerBound(table: seq<Entry>, key: Key): (r: nat)
    ensures r <= |table|
  {
    LowerBoundFrom(table, key, 0)
  }

  lemma LowerBoundSplits(table: seq<Entry>, key: Key, k: int)
    requires Sorted(table) && ValidKey(key) && 0 <= k < |table|
    ensures k < LowerBound(table, key) <==> Compare(NameAt(table, k), NameOf(key)) < 0
  {
    var r := LowerBound(table, key);
    LessIsCanonical(Stored(table[k].data), key);
    if k >= r {
      LessIsCanonical(Stored(table[r].data), key);
      Ascending(table, r, k);
      CompareAntisymmetric(NameAt(table, r), NameOf(key));
      CompareAntisymmetric(NameAt(table, k), NameOf(key));
      if Compare(NameAt(table, k), NameOf(key)) < 0 {
        CompareTransitive(NameAt(table, r), NameAt(table, k), NameOf(key));
      }
    }
  }

  lemma SuccessorWellPlaced(p: Name)
    requires p != [] && WellPlaced(p)
    ensures WellPlaced(Successor(p))
  {
  }

  /** Lower bounds of a prefix and its successor enclose exactly the entries under the prefix. */
  lemma RangeIsNamespace(table: seq<Entry>, p: Name, k: int)
    requires Sorted(table) && WellPlaced(p) && 0 <= k < |table|
    ensures p <= NameAt(table, k) <==>
      LowerBound(table, Query(p)) <= k && (p != [] ==> k < LowerBound(table, Query(Successor(p))))
  {
    LowerBoundSplits(table, Query(p), k);
    if p == [] {
    } else {
      SuccessorWellPlaced(p);
      LowerBoundSplits(table, Query(Successor(p)), k);
      PrefixRange(p, NameAt(table, k));
    }
  }

  /** What a leftmost lookup promises: the least match. */
  ghost predicate LeastMatch(table: seq<Entry>, interest: Interest, now: int, r: nat) {
    r < |table| && CanSatisfy(table[r], interest, now) &&
    forall k :: 0 <= k < |table| && CanSatisfy(table[k], interest, now) ==> r <= k
  }

  /** What a rightmost lookup promises: the least match in the greatest sub-namespace, one
      component longer than the Interest, that has a match; failing that, the greatest match. */
  ghost predicate RightmostMatch(table: seq<Entry>, interest: Interest, now: int, r: nat) {
    var length := |interest.name|;
    r < |table| && CanSatisfy(table[r], interest, now) &&
    forall k :: 0 <= k < |table| && CanSatisfy(table[k], interest, now) ==>
      if |table[r].data.name| > length
      then |table[k].data.name| > length ==>
        CompareComponent(NameAt(table, k)[length], NameAt(table, r)[length]) <= 0 &&
        (NameAt(table, k)[length] == NameAt(table, r)[length] ==> r <= k)
      else |table[k].data.name| <= length && k <= r
  }

  ghost predicate BestMatch(table: seq<Entry>, interest: Interest, now: int, r: nat) {
    if interest.rightmost then RightmostMatch(table, interest, now, r) else LeastMatch(table, interest, now, r)
  }

  /** At most one entry is the best. */
  lemma BestMatchUnique(table: seq<Entry>, interest: Interest, now: int, r: nat, s: nat)
    requires BestMatch(table, interest, now, r) && BestMatch(table, interest, now, s)
    ensures r == s
  {
    if interest.rightmost && |table[r].data.name| > |interest.name| {
      var a, b := NameAt(table, r)[|interest.name|], NameAt(table, s)[|interest.name|];
      assert CompareComponent(a, b) <= 0 && CompareComponent(b, a) <= 0;
      assert a == b;
    }
  }

  method FindLeftmost(table: seq<Entry>, interest: Interest, now: int, first: nat, last: nat) returns (r: nat)
    requires first <= last <= |table|
    ensures first <= r <= last
    ensures r < last ==> CanSatisfy(table[r], interest, now)
    ensures forall k :: first <= k < r ==> !CanSatisfy(table[k], interest, now)
  {
    r := first;
    while r < last && !CanSatisfy(table[r], interest, now)
      invariant first <= r <= last
      invariant forall k :: first <= k < r ==> !CanSatisfy(table[k], interest, now)
    {
      r := r + 1;
    }
  }

  /** find_last_if: the last match, or `last` if there is none. */
  method FindRightmostAmongExact(table: seq<Entry>, interest: Interest, now: int, first: nat, last: nat) returns (r: nat)
    requires first <= last <= |table|
    ensures r == last || (first <= r < last && CanSatisfy(table[r], interest, now))
    ensures forall k :: first <= k < last && CanSatisfy(table[k], interest, now) ==> k <= r && r < last
  {
    r := last;
    var i := first;
    while i < last
      invariant first <= i <= last
      invariant r == last || (first <= r < i && CanSatisfy(table[r], interest, now))
      invariant forall k :: first <= k < i && CanSatisfy(table[k], interest, now) ==> k <= r && r < last
    {
      if CanSatisfy(table[i], interest, now) {
        r := i;
      }
      i := i + 1;
    }
  }

  /** Where the interest's namespace lies in the index. */
  ghost predicate Bounds(table: seq<Entry>, p: Name, first: nat, last: nat) {
    first <= last <= |table| && forall k :: 0 <= k < |table| ==> (p <= NameAt(table, k) <==> first <= k < last)
  }

  /** An exact name stands before every longer name: none of the entries up to it is longer. */
  lemma ExactFirst(table: seq<Entry>, p: Name, first: nat, last: nat, prev: nat, k: nat)
    requires Sorted(table) && Bounds(table, p, first, last) && first <= k <= prev < last
    requires !EndsWithDigest(p) && |table[prev].data.name| == |p|
    ensures |table[k].data.name| == |p|
  {
    Longer(table, p, prev);
    Longer(table, p, k);
    Ascending(table, k, prev);
    NextComponentDecides(p, NameAt(table, k), NameAt(table, prev));
  }

  lemma Longer(table: seq<Entry>, p: Name, k: nat)
    requires Sorted(table) && k < |table| && p <= NameAt(table, k) && !EndsWithDigest(p)
    ensures |table[k].data.name| >= |p|
  {
    var full := NameAt(table, k);
    assert full[|full| - 1].Digest? && full[..|full|] == full;
  }

  /** The sub-namespace of prev: from its lower bound up to prev and nothing else below prev. */
  lemma SubNamespace(table: seq<Entry>, p: Name, first: nat, last: nat, prev: nat, k: nat)
    requires Sorted(table) && Bounds(table, p, first, last) && first <= prev < last && !EndsWithDigest(p)
    requires |table[prev].data.name| > |p| && first <= k < last
    ensures var sub := NameAt(table, prev)[..|p| + 1]; var left := LowerBound(table, Query(sub));
      WellPlaced(sub) && first <= left <= prev &&
      (left <= k <= prev ==> |table[k].data.name| > |p| && NameAt(table, k)[|p|] == NameAt(table, prev)[|p|]) &&
      (k < left && |table[k].data.name| > |p| ==>
        NameAt(table, k)[|p|] != NameAt(table, prev)[|p|] &&
        CompareComponent(NameAt(table, k)[|p|], NameAt(table, prev)[|p|]) <= 0)
  {
    var full := NameAt(table, prev);
    var sub := full[..|p| + 1];
    var left := LowerBound(table, Query(sub));
    assert forall i :: 0 <= i < |sub| ==> sub[i] == table[prev].data.name[i];
    RangeIsNamespace(table, sub, prev);
    LowerBoundSplits(table, Query(sub), left);
    InBetween(table, sub, left, prev);
    assert p <= NameAt(table, left);
    if left <= k <= prev {
      LowerBoundSplits(table, Query(sub), k);
      InBetween(table, sub, k, prev);
      LongerThan(table, p, sub, k);
    } else if k < left && |table[k].data.name| > |p| {
      Ascending(table, k, prev);
      NextComponentDecides(p, NameAt(table, k), full);
      if NameAt(table, k)[|p|] == full[|p|] {
        assert sub <= NameAt(table, k);
        RangeIsNamespace(table, sub, k);
      }
    }
  }

  /** Between a prefix and one of its extensions there are only extensions. */
  lemma InBetween(table: seq<Entry>, sub: Name, k: nat, prev: nat)
    requires Sorted(table) && WellPlaced(sub) && sub != [] && k <= prev < |table|
    requires Compare(NameAt(table, k), sub) >= 0 && sub <= NameAt(table, prev)
    ensures sub <= NameAt(table, k)
  {
    Ascending(table, k, prev);
    PrefixRange(sub, NameAt(table, prev));
    CompareTransitive(NameAt(table, k), NameAt(table, prev), Successor(sub));
    PrefixRange(sub, NameAt(table, k));
  }

  lemma LongerThan(table: seq<Entry>, p: Name, sub: Name, k: nat)
    requires Sorted(table) && k < |table| && sub <= NameAt(table, k) && |sub| == |p| + 1 && p <= sub && sub[|p|].Generic?
    ensures |table[k].data.name| > |p| && NameAt(table, k)[|p|] == sub[|p|]
  {
    var full := NameAt(table, k);
    assert full[|p|] == sub[|p|] && full[|full| - 1].Digest?;
  }

  lemma MatchesInBounds(table: seq<Entry>, interest: Interest, now: int, first: nat, last: nat)
    requires Bounds(table, interest.name, first, last)
    ensures forall k :: 0 <= k < |table| && CanSatisfy(table[k], interest, now) ==> first <= k < last
  {
    forall k | 0 <= k < |table| && CanSatisfy(table[k], interest, now) ensures first <= k < last {
      assert interest.name <= NameAt(table, k);
    }
  }

  /** Where a rightmost lookup goes astray: the packet that the Interest names in full is stored and
      does not satisfy it, and another packet of the same Data name stands before it. */
  ghost predicate Strays(table: seq<Entry>, interest: Interest, now: int) {
    EndsWithDigest(interest.name) &&
    exists k :: 0 <= k < |table| && NameAt(table, k) == interest.name && !CanSatisfy(table[k], interest, now) && HasElder(table, k)
  }

  ghost predicate HasElder(table: seq<Entry>, k: int)
    requires 0 <= k < |table|
  {
    exists j :: 0 <= j < k && table[j].data.name == table[k].data.name
  }

  /** At most one entry has a full name as its name. */
  lemma DigestRange(table: seq<Entry>, p: Name, first: nat, last: nat)
    requires Sorted(table) && Bounds(table, p, first, last) && EndsWithDigest(p) && first < last
    ensures last == first + 1 && NameAt(table, first) == p && |table[first].data.name| == |p| - 1
    ensures forall k :: 0 <= k < |table| && NameAt(table, k) == p ==> k == first
  {
    forall k | first <= k < last ensures NameAt(table, k) == p && |table[k].data.name| == |p| - 1 {
      var full := NameAt(table, k);
      assert p <= full && full[|p| - 1] == p[|p| - 1];
      assert |full| == |p|;
      assert full[..|p|] == full;
    }
    if last > first + 1 {
      Ascending(table, first, first + 1);
      CompareAntisymmetric(p, p);
      assert false;
    }
  }

  /** The lower bound of the Data name falls short of the packet exactly if it has an elder. */
  lemma ElderBound(table: seq<Entry>, k: int)
    requires Sorted(table) && 0 <= k < |table|
    ensures var left := LowerBound(table, Query(table[k].data.name));
      left <= k && (left < k <==> HasElder(table, k))
  {
    var q := table[k].data.name;
    var left := LowerBound(table, Query(q));
    assert q <= NameAt(table, k);
    DataNamePlaced(table, k);
    RangeIsNamespace(table, q, k);
    if left < k {
      LowerBoundSplits(table, Query(q), left);
      Elder(table, k, left);
    }
    forall j | 0 <= j < k && table[j].data.name == q ensures left < k {
      assert q <= NameAt(table, j);
      RangeIsNamespace(table, q, j);
    }
  }

  lemma DataNamePlaced(table: seq<Entry>, k: int)
    requires Sorted(table) && 0 <= k < |table|
    ensures WellPlaced(table[k].data.name)
  {
  }

  /** Between a Data name and one of its packets there are only its packets. */
  lemma Elder(table: seq<Entry>, k: int, left: nat)
    requires Sorted(table) && 0 <= left < k < |table| && Compare(NameAt(table, left), table[k].data.name) >= 0
    ensures table[left].data.name == table[k].data.name
  {
    var q, full := table[k].data.name, NameAt(table, left);
    var i := |table[left].data.name|;
    Ascending(table, left, k);
    assert q <= NameAt(table, k);
    if q != [] {
      InBetween(table, q, left, k);
    }
    assert full[i].Digest?;
    NextComponentDecides(q, full, NameAt(table, k));
    assert table[left].data.name == full[..|q|];
  }

  /** No entry from `right` on satisfies, and none right of it but in the interest's namespace. */
  ghost predicate DoneFrom(table: seq<Entry>, interest: Interest, now: int, right: nat, last: nat) {
    right <= last <= |table| && forall k :: right <= k < last ==> !CanSatisfy(table[k], interest, now)
  }

  /** The least match of the sub-namespace of prev is the one looked for. */
  lemma BestBelow(table: seq<Entry>, interest: Interest, now: int, first: nat, last: nat, right: nat, found: nat)
    requires Sorted(table) && Bounds(table, interest.name, first, last) && !EndsWithDigest(interest.name)
    requires first < right && DoneFrom(table, interest, now, right, last) && |table[right - 1].data.name| > |interest.name|
    requires var left := LowerBound(table, Query(table[right - 1].data.name[..|interest.name| + 1]));
      left <= found < right && CanSatisfy(table[found], interest, now) &&
      forall k :: left <= k < found ==> !CanSatisfy(table[k], interest, now)
    ensures RightmostMatch(table, interest, now, found)
  {
    hide Sorted, LowerBound, CompareComponent, WellPlaced;
    var length, prev := |interest.name|, right - 1;
    var left := LowerBound(table, Query(table[prev].data.name[..length + 1]));
    assert NameAt(table, prev)[..length + 1] == table[prev].data.name[..length + 1];
    MatchesInBounds(table, interest, now, first, last);
    SameComponent(NameAt(table, prev)[length]);
    SubNamespace(table, interest.name, first, last, prev, found);
    forall k | 0 <= k < |table| && CanSatisfy(table[k], interest, now) && |table[k].data.name| > length
      ensures CompareComponent(NameAt(table, k)[length], NameAt(table, found)[length]) <= 0
      ensures NameAt(table, k)[length] == NameAt(table, found)[length] ==> found <= k
    {
      SubNamespace(table, interest.name, first, last, prev, k);
    }
  }

  /** Where exact names are reached, the greatest match among them is the one looked for. */
  lemma BestExact(table: seq<Entry>, interest: Interest, now: int, first: nat, last: nat, right: nat, found: nat)
    requires Sorted(table) && Bounds(table, interest.name, first, last) && !EndsWithDigest(interest.name)
    requires first < right && DoneFrom(table, interest, now, right, last) && |table[right - 1].data.name| == |interest.name|
    requires found == right || (first <= found < right && CanSatisfy(table[found], interest, now))
    requires forall k :: first <= k < right && CanSatisfy(table[k], interest, now) ==> k <= found && found < right
    ensures if found == right then forall k :: 0 <= k < |table| ==> !CanSatisfy(table[k], interest, now)
            else RightmostMatch(table, interest, now, found)
  {
    hide Sorted, CompareComponent;
    MatchesInBounds(table, interest, now, first, last);
    forall k | first <= k < right ensures |table[k].data.name| == |interest.name| {
      ExactFirst(table, interest.name, first, last, right - 1, k);
    }
  }

  /** The same for the one packet that a full name can name. */
  lemma BestFull(table: seq<Entry>, interest: Interest, now: int, first: nat, last: nat, found: nat)
    requires Sorted(table) && Bounds(table, interest.name, first, last) && EndsWithDigest(interest.name)
    requires found < |table| && CanSatisfy(table[found], interest, now)
    ensures RightmostMatch(table, interest, now, found) && found == first
  {
    hide Sorted;
    assert interest.name <= NameAt(table, found);
    DigestRange(table, interest.name, first, last);
    MatchesInBounds(table, interest, now, first, last);
  }

  /** Once the named packet was found not to satisfy, the lookup strays exactly if it has an elder. */
  lemma StraysIff(table: seq<Entry>, interest: Interest, now: int, first: nat, last: nat)
    requires Sorted(table) && Bounds(table, interest.name, first, last)
    ensures Strays(table, interest, now) <==>
      EndsWithDigest(interest.name) && first < last && !CanSatisfy(table[first], interest, now) && HasElder(table, first)
  {
    hide Sorted, HasElder;
    if EndsWithDigest(interest.name) {
      if first < last {
        DigestRange(table, interest.name, first, last);
      }
      forall k | 0 <= k < |table| && NameAt(table, k) == interest.name ensures k == first && first < last {
        assert interest.name <= NameAt(table, k);
      }
    }
  }

  /** Visits sub-namespaces one component longer than the Interest from the greatest down; None where
      an iterator leaves its range, which happens exactly when the lookup strays. */
  method FindRightmost(table: seq<Entry>, interest: Interest, now: int, first: nat, last: nat) returns (r: Option<nat>)
    requires Sorted(table) && Bounds(table, interest.name, first, last)
    ensures r.None? <==> Strays(table, interest, now)
    ensures r.Some? && r.value != last ==> r.value < last && RightmostMatch(table, interest, now, r.value)
    ensures r == Some(last) ==> forall k :: 0 <= k < |table| ==> !CanSatisfy(table[k], interest, now)
  {
    hide Sorted, LowerBound, Bounds, Strays, RightmostMatch, HasElder, CanSatisfy;
    MatchesInBounds(table, interest, now, first, last);
    BoundsRange(table, interest.name, first, last);
    StraysIff(table, interest, now, first, last);
    var length := |interest.name|;
    ghost var full := EndsWithDigest(interest.name);
    var right: nat := last;
    while right != first
      invariant right <= |table| && DoneFrom(table, interest, now, right, last)
      invariant right < first ==> Strays(table, interest, now)
      invariant right == first && first < last && full ==> !HasElder(table, first)
      decreases right
    {
      if right == 0 {
        // the predecessor of the beginning
        return None;
      }
      var prev := right - 1;
      if full && first < right {
        DigestRange(table, interest.name, first, last);
      }
      if |table[prev].data.name| == length {
        if right < first {
          // a range that ends before it begins
          return None;
        }
        var matchExact := FindRightmostAmongExact(table, interest, now, first, right);
        BestExact(table, interest, now, first, last, right, matchExact);
        return Some(if matchExact == right then last else matchExact);
      }

      var n := Min(length + 1, |table[prev].data.name|);
      var left := LowerBound(table, Query(table[prev].data.name[..n]));
      PrefixBound(table, prev, n);
      if first < right {
        if full {
          ElderBound(table, first);
          assert table[prev].data.name[..n] == table[first].data.name;
        } else {
          LongerInBounds(table, interest.name, first, last, prev);
          LeftInBounds(table, interest.name, first, last, prev);
        }
      }
      var found := FindLeftmost(table, interest, now, left, right);
      if found != right {
        if full {
          BestFull(table, interest, now, first, last, found);
        } else {
          BestBelow(table, interest, now, first, last, right, found);
        }
        return Some(found);
      }
      right := left;
    }
    return Some(last);
  }

  lemma BoundsRange(table: seq<Entry>, p: Name, first: nat, last: nat)
    requires Bounds(table, p, first, last)
    ensures first <= last <= |table|
  {
  }

  lemma LongerInBounds(table: seq<Entry>, p: Name, first: nat, last: nat, k: nat)
    requires Sorted(table) && Bounds(table, p, first, last) && first <= k < last && !EndsWithDigest(p)
    ensures |table[k].data.name| >= |p|
  {
    hide Sorted;
    Longer(table, p, k);
  }

  lemma LeftInBounds(table: seq<Entry>, p: Name, first: nat, last: nat, prev: nat)
    requires Sorted(table) && Bounds(table, p, first, last) && first <= prev < last && !EndsWithDigest(p)
    requires |table[prev].data.name| > |p|
    ensures first <= LowerBound(table, Query(table[prev].data.name[..|p| + 1]))
  {
    hide Sorted, LowerBound;
    assert NameAt(table, prev)[..|p| + 1] == table[prev].data.name[..|p| + 1];
    SubNamespace(table, p, first, last, prev, prev);
  }

  lemma PrefixBound(table: seq<Entry>, k: nat, n: nat)
    requires Sorted(table) && k < |table| && n <= |table[k].data.name|
    ensures LowerBound(table, Query(table[k].data.name[..n])) <= k
  {
    assert table[k].data.name[..n] <= NameAt(table, k);
    RangeIsNamespace(table, table[k].data.name[..n], k);
  }

  lemma SameComponent(c: Component)
    ensures CompareComponent(c, c) == 0
  {
  }

  /** What a lookup ends with. */
  datatype Lookup = Hit(index: nat) | Miss | Astray

  /** A lookup goes astray only if it is rightmost and the packet named in full is stored behind an elder
      without satisfying; otherwise it hits exactly if some stored entry satisfies the Interest, and
      then the best one. */
  method Find(table: seq<Entry>, interest: Interest, now: int) returns (r: Lookup)
    requires Sorted(table) && WellPlaced(interest.name)
    ensures r.Astray? <==> interest.rightmost && Strays(table, interest, now)
    ensures r.Hit? ==> BestMatch(table, interest, now, r.index)
    ensures r.Miss? ==> forall k :: 0 <= k < |table| ==> !CanSatisfy(table[k], interest, now)
  {
    hide Sorted, LowerBound, WellPlaced, CompareComponent, Strays;
    var prefix := interest.name;
    var first := LowerBound(table, Query(prefix));
    var last := |table|;
    if |prefix| > 0 {
      last := LowerBound(table, Query(Successor(prefix)));
    }
    BoundsFound(table, prefix);
    MatchesInBounds(table, interest, now, first, last);

    var found;
    if interest.rightmost {
      var rightmost := FindRightmost(table, interest, now, first, last);
      if rightmost.None? {
        return Astray;
      }
      found := rightmost.value;
    } else {
      found := FindLeftmost(table, interest, now, first, last);
    }
    return if found == last then Miss else Hit(found);
  }

  /** Two packets of one Data name, and a rightmost Interest for the second that it does not satisfy. */
  lemma StraysSomewhere()
    ensures var table := [Entry(Data([Generic(5)], 1, -1), false, None), Entry(Data([Generic(5)], 2, 0), false, Some(0))];
      var interest := Interest([Generic(5), Digest(2)], true, true, (d: Data) => true);
      Sorted(table) && WellPlaced(interest.name) && Strays(table, interest, 1)
  {
    var a, b := Data([Generic(5)], 1, -1), Data([Generic(5)], 2, 0);
    var table := [Entry(a, false, None), Entry(b, false, Some(0))];
    assert Less(Stored(a), Stored(b));
    assert NameAt(table, 1) == [Generic(5), Digest(2)];
    assert table[0].data.name == table[1].data.name && HasElder(table, 1);
  }

  lemma BoundsFound(table: seq<Entry>, p: Name)
    requires Sorted(table) && WellPlaced(p)
    ensures Bounds(table, p, LowerBound(table, Query(p)),
                   if p == [] then |table| else LowerBound(table, Query(Successor(p))))
  {
    hide Sorted, LowerBound;
    var first := LowerBound(table, Query(p));
    forall k | 0 <= k < |table| ensures p <= NameAt(table, k) <==>
      first <= k && (p != [] ==> k < LowerBound(table, Query(Successor(p))))
    {
      RangeIsNamespace(table, p, k);
    }
    if p != [] {
      var last := LowerBound(table, Query(Successor(p)));
      SuccessorWellPlaced(p);
      if last < first {
        LowerBoundSplits(table, Query(p), last);
        LowerBoundSplits(table, Query(Successor(p)), last);
        BelowSuccessor(p, NameAt(table, last));
      }
    }
  }

  lemma BelowSuccessor(p: Name, n: Name)
    requires p != [] && Compare(n, p) < 0
    ensures Compare(n, Successor(p)) < 0
  {
    PrefixRange(p, p);
    CompareAntisymmetric(p, p);
    CompareTransitive(n, p, Successor(p));
  }
}
