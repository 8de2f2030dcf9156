/** Names as sequences of components in NDN canonical order. */
module Names {
  import opened Common

  /** A component by its rank in canonical order: implicit digests sort before everything else;
      within a type, canonical order (shorter first, then octet by octet) counts components off. */
  datatype Component = Digest(value: nat) | Generic(rank: nat)

  type Name = seq<Component>

  function Parent(name: Name): Name
    requires name != []
  {
    name[..|name| - 1]
  }

  predicate EndsWithDigest(name: Name) {
    name != [] && name[|name| - 1].Digest?
  }

  /** Takes the first occurrence of a name out of a list. */
  function Remove(s: seq<Name>, x: Name): seq<Name> {
    if s == [] then [] else if s[0] == x then s[1..] else [s[0]] + Remove(s[1..], x)
  }

  lemma RemoveMembers(s: seq<Name>, x: Name)
    requires NoDuplicates(s)
    ensures NoDuplicates(Remove(s, x))
    ensures forall y :: y in Remove(s, x) <==> y in s && y != x
  {
    if s != [] && s[0] != x {
      RemoveMembers(s[1..], x);
      assert forall y :: y in s <==> y == s[0] || y in s[1..];
      assert s[0] !in s[1..];
    } else if s != [] {
      assert forall y :: y in s <==> y == s[0] || y in s[1..];
    }
  }

  /** The others keep their order. */
  lemma {:induction false} RemoveSplices(s: seq<Name>, i: nat)
    requires NoDuplicates(s) && i < |s|
    ensures Remove(s, s[i]) == s[..i] + s[i + 1..]
  {
    if i > 0 {
      assert s[0] != s[i] && s[1..][i - 1] == s[i];
      RemoveSplices(s[1..], i - 1);
    }
  }

  lemma AppendMembers(s: seq<Name>, x: Name)
    ensures NoDuplicates(s) && x !in s ==> NoDuplicates(s + [x])
    ensures forall y :: y in s + [x] <==> y in s || y == x
  {
  }
}
