/** One bucket's chain of nodes, kept as a sequence in chain order: the
    walk that looks a key up, the walk that inserts or updates a key, and
    the key-to-number map a chain stands for. */
module Chains {
  import opened Contacts

  type Chain = seq<Node>

  /** Where the walk for `key` stops: the position of the first node with
      that key, or `|c|` when no node has it. */
  function FirstIndex(c: Chain, key: string): (j: nat)
    ensures j <= |c|
    ensures forall i :: 0 <= i < j ==> c[i].key != key
    ensures j < |c| ==> c[j].key == key
  {
    if |c| == 0 then 0
    else if c[0].key == key then 0
    else 1 + FirstIndex(c[1..], key)
  }

  /** Some node of `c` has key `key`: the walk for it stops before the end. */
  predicate HasKey(c: Chain, key: string)
  {
    FirstIndex(c, key) < |c|
  }

  /** No two nodes of `c` share a key. */
  predicate UniqueKeys(c: Chain)
  {
    forall i, j :: 0 <= i < j < |c| ==> c[i].key != c[j].key
  }

  /** Every node's contact is named after the node's key. */
  predicate NamedAfterKeys(c: Chain)
  {
    forall j :: 0 <= j < |c| ==> c[j].value.name == c[j].key
  }

  /** The node a fresh insertion creates: as a one-node chain it stands for
      the single entry `key` to `number`, and its contact is named after the key. */
  function NewNode(key: string, number: string): (n: Node)
    ensures ChainView([n]) == map[key := number]
    ensures NamedAfterKeys([n])
  {
    Node(key, Contact(key, number))
  }

  /** The same node with only its contact's number replaced: as a one-node
      chain its entry now holds `number`, and the contact keeps its name. */
  function WithNumber(n: Node, number: string): (r: Node)
    ensures ChainView([r]) == ChainView([n])[n.key := number]
    ensures r.value.name == n.value.name
  {
    n.(value := n.value.(number := number))
  }

  /** The contact of the first node with key `key`, or None when the walk
      reaches the end of the chain without a match. */
  function Find(c: Chain, key: string): (r: Option<Contact>)
    ensures var j := FirstIndex(c, key);
            r == if j < |c| then Some(c[j].value) else None
  {
    if |c| == 0 then None
    else if c[0].key == key then Some(c[0].value)
    else
      assert c[1..][FirstIndex(c[1..], key)..] == c[FirstIndex(c, key)..];
      Find(c[1..], key)
  }

  /** The walk of a bucket on insertion: the first node with key `key` has
      its number replaced; when there is none, a new node is appended at
      the tail. */
  function UpdateOrAppend(c: Chain, key: string, number: string): (r: Chain)
    ensures var j := FirstIndex(c, key);
            r == if j < |c| then c[j := WithNumber(c[j], number)] else c + [NewNode(key, number)]
  {
    if |c| == 0 then [NewNode(key, number)]
    else if c[0].key == key then c[0 := WithNumber(c[0], number)]
    else
      var rest := UpdateOrAppend(c[1..], key, number);
      UpdateOrAppendCons(c, FirstIndex(c[1..], key), number, key);
      [c[0]] + rest
  }

  /** Putting back a head node commutes with updating a later position and
      with appending at the tail. */
  lemma UpdateOrAppendCons(c: Chain, j: int, number: string, key: string)
    requires |c| > 0 && 0 <= j <= |c| - 1
    ensures j < |c| - 1 ==>
              [c[0]] + c[1..][j := WithNumber(c[1..][j], number)] == c[j + 1 := WithNumber(c[j + 1], number)]
    ensures [c[0]] + (c[1..] + [NewNode(key, number)]) == c + [NewNode(key, number)]
  {
    assert c == [c[0]] + c[1..];
  }

  /** Updating or appending a key changes no other key: every node of the
      result keeps the key at its position or holds the inserted key. Unique
      keys and contacts named after their keys are preserved. */
  lemma UpdateOrAppendPreserves(c: Chain, key: string, number: string)
    ensures var r := UpdateOrAppend(c, key, number);
            forall j :: 0 <= j < |r| ==> r[j].key == key || (j < |c| && r[j].key == c[j].key)
    ensures UniqueKeys(c) ==> UniqueKeys(UpdateOrAppend(c, key, number))
    ensures NamedAfterKeys(c) ==> NamedAfterKeys(UpdateOrAppend(c, key, number))
  {
    var j := FirstIndex(c, key);
    if j < |c| {
      UpdateAtPreserves(c, j, number);
    } else {
      AppendPreserves(c, key, number);
    }
  }

  /** Replacing the number of the node at `j` keeps every key in place. */
  lemma UpdateAtPreserves(c: Chain, j: int, number: string)
    requires 0 <= j < |c|
    ensures var r := c[j := WithNumber(c[j], number)];
            && |r| == |c|
            && (forall i :: 0 <= i < |r| ==> r[i].key == c[i].key && r[i].value.name == c[i].value.name)
            && (UniqueKeys(c) ==> UniqueKeys(r))
            && (NamedAfterKeys(c) ==> NamedAfterKeys(r))
  {
  }

  /** Appending a node for a key no node has keeps keys unique. */
  lemma AppendPreserves(c: Chain, key: string, number: string)
    requires forall i :: 0 <= i < |c| ==> c[i].key != key
    ensures var r := c + [NewNode(key, number)];
            && (forall i :: 0 <= i < |c| ==> r[i] == c[i])
            && r[|c|].key == key
            && (UniqueKeys(c) ==> UniqueKeys(r))
            && (NamedAfterKeys(c) ==> NamedAfterKeys(r))
  {
  }

  /** The key-to-number map a chain stands for; when a key occurs twice the
      first node wins, as it does for the walks above. */
  function ChainView(c: Chain): map<string, string>
  {
    if |c| == 0 then map[] else ChainView(c[1..])[c[0].key := c[0].value.number]
  }

  /** The keys of the view are exactly the keys in the chain, and the walk
      that looks a key up finds the number the view holds for it. */
  lemma {:induction false} FindAgreesWithView(c: Chain, key: string)
    ensures key in ChainView(c) <==> HasKey(c, key)
    ensures key in ChainView(c) ==> Find(c, key).value.number == ChainView(c)[key]
    decreases |c|
  {
    if |c| > 0 {
      FindAgreesWithView(c[1..], key);
    }
  }

  /** Updating or appending a key refines the map update `m[key := number]`. */
  lemma {:induction false} UpdateOrAppendView(c: Chain, key: string, number: string)
    ensures ChainView(UpdateOrAppend(c, key, number)) == ChainView(c)[key := number]
    decreases |c|
  {
    if |c| == 0 {
    } else if c[0].key == key {
      var r := c[0 := WithNumber(c[0], number)];
      assert r[1..] == c[1..];
      assert ChainView(r) == ChainView(c[1..])[key := number];
      MapUpdateTwice(ChainView(c[1..]), key, c[0].value.number, number);
    } else {
      var rest := UpdateOrAppend(c[1..], key, number);
      UpdateOrAppendView(c[1..], key, number);
      assert ([c[0]] + rest)[1..] == rest;
      MapUpdateCommute(ChainView(c[1..]), c[0].key, c[0].value.number, key, number);
    }
  }

  /** A second update of the same key overrides the first. */
  lemma MapUpdateTwice(m: map<string, string>, k: string, v: string, w: string)
    ensures m[k := v][k := w] == m[k := w]
  {
  }

  /** Updates of two different keys commute. */
  lemma MapUpdateCommute(m: map<string, string>, k: string, v: string, k': string, w: string)
    requires k != k'
    ensures m[k := v][k' := w] == m[k' := w][k := v]
  {
  }

  /** The search loop: walk the chain from the head and return the first
      matching contact, or None at the end of the chain. */
  method SearchChain(c: Chain, key: string) returns (r: Option<Contact>)
    ensures r == Find(c, key)
  {
    var i := 0;
    while i < |c|
      invariant 0 <= i <= |c|
      invariant Find(c[i..], key) == Find(c, key)
    {
      if c[i].key == key {
        return Some(c[i].value);
      }
      assert c[i..][1..] == c[i + 1..];
      i := i + 1;
    }
    return None;
  }

  /** The insertion walk: an empty bucket becomes a one-node chain;
      otherwise walk from the head, update the first node whose key
      matches and stop, or append a new node after the last one. */
  method InsertIntoChain(c: Chain, key: string, number: string) returns (r: Chain)
    ensures r == UpdateOrAppend(c, key, number)
  {
    if |c| == 0 {
      return [NewNode(key, number)];
    }
    var i := 0;
    while true
      invariant 0 <= i < |c|
      invariant forall k :: 0 <= k < i ==> c[k].key != key
      decreases |c| - i
    {
      if c[i].key == key {
        return c[i := WithNumber(c[i], number)];
      }
      if i + 1 == |c| {
        break;
      }
      i := i + 1;
    }
    return c + [NewNode(key, number)];
  }
}
