/** Rewriting of query names (fw/forwarder.cpp): a name with "/query" in it leaves the node with
    "/queried/" and another word appended, and is cut back where it arrives. Names are URIs. */
module QueryRewriting {
  import opened Common

  const QUERY: string := "/query"
  const QUERIED: string := "/queried"

  predicate OccursAt(s: string, pattern: string, i: int) {
    0 <= i <= |s| - |pattern| && s[i..i + |pattern|] == pattern
  }

  /** std::string::find: the first occurrence from position i on. */
  function FindFrom(s: string, pattern: string, i: nat): (r: Option<nat>)
    ensures r.Some? ==> i <= r.value && OccursAt(s, pattern, r.value)
    ensures forall j {:trigger OccursAt(s, pattern, j)} ::
      i <= j && OccursAt(s, pattern, j) ==> r.Some? && r.value <= j
    decreases |s| - i
  {
    if i + |pattern| > |s| then None
    else if s[i..i + |pattern|] == pattern then Some(i)
    else FindFrom(s, pattern, i + 1)
  }

  function Find(s: string, pattern: string): (r: Option<nat>)
    ensures r.Some? ==> OccursAt(s, pattern, r.value)
    ensures forall j {:trigger OccursAt(s, pattern, j)} :: OccursAt(s, pattern, j) ==> r.Some? && r.value <= j
  {
    FindFrom(s, pattern, 0)
  }

  predicate Contains(s: string, pattern: string) {
    Find(s, pattern).Some?
  }

  /** A name without its queried part; setName makes the root name of an empty string. */
  function Cut(name: string): string {
    var pos := Find(name, QUERIED);
    if pos.None? then name else if pos.value == 0 then "/" else name[..pos.value]
  }

  /** The name under which a picked Interest leaves the node. */
  function OutgoingName(name: string, queriedName: Option<string>, word: string): string {
    if !Contains(name, QUERY) then name
    else if queriedName.Some? then queriedName.value
    else name + QUERIED + "/" + word
  }

  /** In "/queried" only the first character is a slash, so it cannot begin inside a name and end
      in the "/queried" appended to it. */
  lemma NoneAcross(n: string, rest: string, j: int)
    requires OccursAt(n + QUERIED + rest, QUERIED, j) && j < |n|
    ensures OccursAt(n, QUERIED, j)
  {
    var s := n + QUERIED + rest;
    assert s[|n|] == '/';
    assert forall k {:trigger QUERIED[k]} :: 0 <= k < |QUERIED| ==> s[j + k] == QUERIED[k];
    assert QUERIED[0] == '/' && forall k {:trigger QUERIED[k]} :: 0 < k < |QUERIED| ==> QUERIED[k] != '/';
    assert |n| - j >= |QUERIED|;
    assert n[j..j + |QUERIED|] == s[j..j + |QUERIED|];
  }

  /** Cutting gives back the name that was rewritten, whatever comes after it. */
  lemma CutRewritten(n: string, rest: string)
    requires n != "" && !Contains(n, QUERIED)
    ensures Cut(n + QUERIED + rest) == n
  {
    var s := n + QUERIED + rest;
    assert s[|n|..|n| + |QUERIED|] == QUERIED;
    assert OccursAt(s, QUERIED, |n|);
    var pos := Find(s, QUERIED).value;
    if pos < |n| {
      NoneAcross(n, rest, pos);
    }
    assert s[..|n|] == n;
  }

  lemma CutHasNoQueried(s: string)
    ensures !Contains(Cut(s), QUERIED)
  {
    var pos := Find(s, QUERIED);
    var found := Find(Cut(s), QUERIED);
    if pos.Some? && pos.value > 0 && found.Some? {
      assert s[..pos.value][found.value..found.value + |QUERIED|] == s[found.value..found.value + |QUERIED|];
      assert OccursAt(s, QUERIED, found.value);
    }
  }

  lemma CutIdempotent(s: string)
    ensures Cut(Cut(s)) == Cut(s)
  {
    CutHasNoQueried(s);
  }

  /** A query name is rewritten so that any node that receives it, or Data under it, gets back the
      name it had here. */
  lemma RewriteRoundTrip(n: string, word: string, suffix: string)
    requires Contains(n, QUERY) && !Contains(n, QUERIED)
    ensures Cut(OutgoingName(n, None, word) + suffix) == n
  {
    var rest := "/" + word + suffix;
    assert OutgoingName(n, None, word) + suffix == n + QUERIED + rest;
    CutRewritten(n, rest);
  }

  /** The next node keeps the rewritten name aside and sends it on unchanged, whatever word it
      would have chosen itself. */
  lemma NextHopForwardsSameName(n: string, word: string, otherWord: string)
    requires Contains(n, QUERY) && !Contains(n, QUERIED)
    ensures var arriving := OutgoingName(n, None, word);
      Contains(arriving, QUERIED) && OutgoingName(Cut(arriving), Some(arriving), otherWord) == arriving
  {
    RewriteRoundTrip(n, word, "");
    var arriving := OutgoingName(n, None, word);
    assert arriving + "" == arriving;
    assert arriving[|n|..|n| + |QUERIED|] == QUERIED;
    assert OccursAt(arriving, QUERIED, |n|);
  }

  /** An Interest object, shared by the PIT entry, its in-records, and the face that sends it. */
  class Interest {
    var name: string
    var queriedName: Option<string>
    var nonce: nat

    constructor (name: string, queriedName: Option<string>, nonce: nat)
      ensures this.name == name && this.queriedName == queriedName && this.nonce == nonce
    {
      this.name, this.queriedName, this.nonce := name, queriedName, nonce;
    }

    /** On arrival: the name with its queried part is put aside, once, and cut. */
    method Arrive()
      modifies this
      ensures name == Cut(old(name)) && nonce == old(nonce)
      ensures !Contains(name, QUERIED)
      ensures queriedName ==
        if Contains(old(name), QUERIED) && old(queriedName).None? then Some(old(name)) else old(queriedName)
    {
      CutHasNoQueried(name);
      var pos := Find(name, QUERIED);
      if pos.Some? {
        if queriedName.None? {
          queriedName := Some(name);
        }
        name := if pos.value == 0 then "/" else name[..pos.value];
      }
    }
  }

  datatype Packet = Packet(name: string, nonce: nat)

  /** Sends a picked in-record's Interest, renamed in place while it is sent and restored after:
      every Interest, in whatever records it is shared, has its old name again. With a new Nonce the
      packet is a copy made before the renaming, which keeps the plain name. */
  method SendPicked(picked: Interest, others: seq<Interest>, newNonce: Option<nat>, word: string) returns (sent: Packet)
    modifies picked`name
    ensures forall i :: 0 <= i < |others| ==> others[i].name == old(others[i].name)
    ensures picked.name == old(picked.name)
    ensures sent == if newNonce.Some? then Packet(old(picked.name), newNonce.value)
                    else Packet(OutgoingName(old(picked.name), picked.queriedName, word), picked.nonce)
  {
    var interest := picked;
    if newNonce.Some? {
      interest := new Interest(picked.name, picked.queriedName, newNonce.value);
    }
    var name := picked.name;
    var pos := Find(name, QUERY);
    if pos.Some? {
      if picked.queriedName.Some? {
        picked.name := picked.queriedName.value;
      } else {
        picked.name := name + QUERIED + "/" + word;
      }
      sent := Packet(interest.name, interest.nonce);
      picked.name := name;
    } else {
      sent := Packet(interest.name, interest.nonce);
    }
  }
}
