/** The separate-chaining hash table that maps contact names to phone
    numbers: a fixed number of buckets, each a chain of nodes. */
module HashTable {
  import opened Contacts
  import opened Hashing
  import opened Chains

  /** `size` is fixed at construction; `buckets[i]` is the chain at index i. */
  datatype Table = Table(size: int, buckets: seq<Chain>)

  /** What insertion and search need so that the index they compute is in range. */
  predicate WellFormed(t: Table)
  {
    t.size > 0 && |t.buckets| == t.size
  }

  /** Every node sits in the bucket its key hashes to. */
  predicate KeysHashTo(bs: seq<Chain>, size: int)
    requires size > 0
  {
    forall i, j :: 0 <= i < |bs| && 0 <= j < |bs[i]| ==> Hash(bs[i][j].key, size) == i
  }

  /** The invariants every table reachable by construction and insertion keeps:
      nodes sit in their key's bucket, keys are unique within a bucket, and
      every node's contact is named after its key. */
  predicate Valid(t: Table)
  {
    && WellFormed(t)
    && KeysHashTo(t.buckets, t.size)
    && (forall i :: 0 <= i < |t.buckets| ==> UniqueKeys(t.buckets[i]))
    && (forall i :: 0 <= i < |t.buckets| ==> NamedAfterKeys(t.buckets[i]))
  }

  /** The key-to-number map a sequence of buckets stands for. */
  function BucketsView(bs: seq<Chain>): map<string, string>
  {
    if |bs| == 0 then map[] else BucketsView(bs[..|bs| - 1]) + ChainView(bs[|bs| - 1])
  }

  /** The abstract contact book a table stands for. */
  function View(t: Table): map<string, string>
  {
    BucketsView(t.buckets)
  }

  /** A table of `size` buckets, all empty. */
  function New(size: int): (t: Table)
    requires size > 0
    ensures Valid(t)
    ensures t.size == size && |t.buckets| == size
    ensures forall i :: 0 <= i < size ==> t.buckets[i] == []
  {
    Table(size, seq(size, _ => []))
  }

  /** Insert `key` with `number`: an empty bucket gets a one-node chain; a
      non-empty one has the key's node updated, or a new node appended. */
  function Insert(t: Table, key: string, number: string): (r: Table)
    requires WellFormed(t)
    ensures WellFormed(r) && r.size == t.size
    ensures forall i :: 0 <= i < |t.buckets| && i != Hash(key, t.size) ==>
              r.buckets[i] == t.buckets[i]
    ensures var h := Hash(key, t.size);
            t.buckets[h] == [] ==> r.buckets[h] == [NewNode(key, number)]
    ensures var c := t.buckets[Hash(key, t.size)];
            var j := FirstIndex(c, key);
            j < |c| ==> r.buckets[Hash(key, t.size)] == c[j := WithNumber(c[j], number)]
    ensures var c := t.buckets[Hash(key, t.size)];
            !HasKey(c, key) ==> r.buckets[Hash(key, t.size)] == c + [NewNode(key, number)]
  {
    var h := Hash(key, t.size);
    if t.buckets[h] == [] then
      t.(buckets := t.buckets[h := [NewNode(key, number)]])
    else
      t.(buckets := t.buckets[h := UpdateOrAppend(t.buckets[h], key, number)])
  }

  /** Look `key` up in the bucket it hashes to. */
  function Search(t: Table, key: string): (r: Option<Contact>)
    requires WellFormed(t)
    ensures var c := t.buckets[Hash(key, t.size)];
            var j := FirstIndex(c, key);
            r == if j < |c| then Some(c[j].value) else None
  {
    Find(t.buckets[Hash(key, t.size)], key)
  }

  /** Insertion keeps every invariant of the table. */
  lemma InsertPreservesValid(t: Table, key: string, number: string)
    requires Valid(t)
    ensures Valid(Insert(t, key, number))
  {
    var r := Insert(t, key, number);
    var h := Hash(key, t.size);
    var c := t.buckets[h];
    assert r.buckets[h] == UpdateOrAppend(c, key, number);
    UpdateOrAppendPreserves(c, key, number);
    forall i, j | 0 <= i < |r.buckets| && 0 <= j < |r.buckets[i]|
      ensures Hash(r.buckets[i][j].key, r.size) == i
    {
      if i == h && r.buckets[i][j].key != key {
        assert Hash(c[j].key, t.size) == h;
      }
    }
    forall i | 0 <= i < |r.buckets|
      ensures UniqueKeys(r.buckets[i]) && NamedAfterKeys(r.buckets[i])
    {
    }
  }

  /** Looking a key up in a sequence of buckets amounts to looking it up in
      the one bucket it hashes to, or finding nothing when that bucket is
      not among them. */
  lemma {:induction false} BucketsViewLookup(bs: seq<Chain>, size: int, key: string)
    requires size > 0
    requires KeysHashTo(bs, size)
    ensures var h := Hash(key, size);
            h < |bs| ==> (key in BucketsView(bs) <==> key in ChainView(bs[h]))
    ensures var h := Hash(key, size);
            h < |bs| && key in ChainView(bs[h]) ==> BucketsView(bs)[key] == ChainView(bs[h])[key]
    ensures Hash(key, size) >= |bs| ==> key !in BucketsView(bs)
    decreases |bs|
  {
    if |bs| > 0 {
      var n := |bs| - 1;
      var h := Hash(key, size);
      var prefix := bs[..n];
      assert KeysHashTo(prefix, size) by {
        forall i, j | 0 <= i < |prefix| && 0 <= j < |prefix[i]|
          ensures Hash(prefix[i][j].key, size) == i
        {
          assert prefix[i] == bs[i];
        }
      }
      BucketsViewLookup(prefix, size, key);
      FindAgreesWithView(bs[n], key);
      if key in ChainView(bs[n]) {
        var j := FirstIndex(bs[n], key);
        assert h == n;
      }
      if h < n {
        assert prefix[h] == bs[h];
      }
    }
  }

  /** In a valid table the abstract view of a key is the view of its bucket. */
  lemma ViewLookup(t: Table, key: string)
    requires Valid(t)
    ensures key in View(t) <==> key in ChainView(t.buckets[Hash(key, t.size)])
    ensures key in View(t) ==> View(t)[key] == ChainView(t.buckets[Hash(key, t.size)])[key]
  {
    BucketsViewLookup(t.buckets, t.size, key);
  }

  /** A new table stands for the empty contact book. */
  lemma NewIsEmpty(size: int)
    requires size > 0
    ensures View(New(size)) == map[]
  {
    var t := New(size);
    forall key | key in View(t)
      ensures false
    {
      ViewLookup(t, key);
    }
  }

  /** Insertion refines the map update `m[key := number]`. */
  lemma InsertRefinesUpdate(t: Table, key: string, number: string)
    requires Valid(t)
    ensures View(Insert(t, key, number)) == View(t)[key := number]
  {
    var r := Insert(t, key, number);
    forall k | true
      ensures k in View(r) <==> k in View(t)[key := number]
      ensures k in View(r) ==> View(r)[k] == View(t)[key := number][k]
    {
      InsertRefinesUpdateAt(t, key, number, k);
    }
  }

  /** The step of `InsertRefinesUpdate` for one key `k`. */
  lemma InsertRefinesUpdateAt(t: Table, key: string, number: string, k: string)
    requires Valid(t)
    ensures var m, m' := View(t)[key := number], View(Insert(t, key, number));
            && (k in m' <==> k in m)
            && (k in m' ==> m'[k] == m[k])
  {
    var r := Insert(t, key, number);
    var h := Hash(key, t.size);
    InsertPreservesValid(t, key, number);
    ViewLookup(t, k);
    ViewLookup(r, k);
    if Hash(k, t.size) == h {
      assert r.buckets[h] == UpdateOrAppend(t.buckets[h], key, number);
      UpdateOrAppendView(t.buckets[h], key, number);
    }
  }

  /** Search refines map lookup: the contact found carries the number the
      view holds for the key, and nothing is found exactly when the key is
      absent from the view. */
  lemma SearchRefinesLookup(t: Table, key: string)
    requires Valid(t)
    ensures Search(t, key) == if key in View(t) then Some(Contact(key, View(t)[key])) else None
  {
    var h := Hash(key, t.size);
    ViewLookup(t, key);
    FindAgreesWithView(t.buckets[h], key);
    var r := Search(t, key);
    if r.Some? {
      assert r.value == t.buckets[h][FirstIndex(t.buckets[h], key)].value;
    }
  }

  /** After inserting `key` with `number`, searching `key` finds that number
      and every other key is found exactly as before. */
  lemma SearchAfterInsert(t: Table, key: string, number: string, other: string)
    requires Valid(t)
    ensures Search(Insert(t, key, number), key) == Some(Contact(key, number))
    ensures other != key ==> Search(Insert(t, key, number), other) == Search(t, other)
  {
    InsertPreservesValid(t, key, number);
    InsertRefinesUpdate(t, key, number);
    SearchRefinesLookup(Insert(t, key, number), key);
    SearchRefinesLookup(Insert(t, key, number), other);
    SearchRefinesLookup(t, other);
  }

  /** Insert the (name, number) pairs of `ops` in order. */
  function InsertAll(t: Table, ops: seq<(string, string)>): (r: Table)
    requires WellFormed(t)
    ensures WellFormed(r) && r.size == t.size
    decreases |ops|
  {
    if |ops| == 0 then t else InsertAll(Insert(t, ops[0].0, ops[0].1), ops[1..])
  }

  /** The map that the same sequence of updates produces. */
  function UpdateAll(m: map<string, string>, ops: seq<(string, string)>): map<string, string>
    decreases |ops|
  {
    if |ops| == 0 then m else UpdateAll(m[ops[0].0 := ops[0].1], ops[1..])
  }

  /** A sequence of insertions keeps the invariants. */
  lemma {:induction false} InsertAllPreservesValid(t: Table, ops: seq<(string, string)>)
    requires Valid(t)
    ensures Valid(InsertAll(t, ops))
    decreases |ops|
  {
    if |ops| > 0 {
      InsertPreservesValid(t, ops[0].0, ops[0].1);
      InsertAllPreservesValid(Insert(t, ops[0].0, ops[0].1), ops[1..]);
    }
  }

  /** A sequence of insertions refines the same sequence of map updates. */
  lemma {:induction false} InsertAllRefinesUpdateAll(t: Table, ops: seq<(string, string)>)
    requires Valid(t)
    ensures View(InsertAll(t, ops)) == UpdateAll(View(t), ops)
    decreases |ops|
  {
    if |ops| > 0 {
      InsertPreservesValid(t, ops[0].0, ops[0].1);
      InsertRefinesUpdate(t, ops[0].0, ops[0].1);
      InsertAllRefinesUpdateAll(Insert(t, ops[0].0, ops[0].1), ops[1..]);
    }
  }

  /** Updates at other keys leave a key's entry as it was. */
  lemma {:induction false} UpdateAllAbsent(m: map<string, string>, ops: seq<(string, string)>, k: string)
    requires forall i :: 0 <= i < |ops| ==> ops[i].0 != k
    ensures k in UpdateAll(m, ops) <==> k in m
    ensures k in m ==> UpdateAll(m, ops)[k] == m[k]
    decreases |ops|
  {
    if |ops| > 0 {
      assert ops[0].0 != k;
      UpdateAllAbsent(m[ops[0].0 := ops[0].1], ops[1..], k);
    }
  }

  /** The last update at a key decides its entry. */
  lemma {:induction false} LastWrite(m: map<string, string>, ops: seq<(string, string)>, i: nat)
    requires i < |ops|
    requires forall j :: i < j < |ops| ==> ops[j].0 != ops[i].0
    ensures ops[i].0 in UpdateAll(m, ops) && UpdateAll(m, ops)[ops[i].0] == ops[i].1
    decreases |ops|
  {
    var m' := m[ops[0].0 := ops[0].1];
    if i == 0 {
      UpdateAllAbsent(m', ops[1..], ops[0].0);
    } else {
      assert ops[1..][i - 1] == ops[i];
      LastWrite(m', ops[1..], i - 1);
    }
  }

  /** Searching a table filled from empty by `ops` for a key no insertion
      used finds nothing. */
  lemma {:induction false} SearchNeverInserted(size: int, ops: seq<(string, string)>, k: string)
    requires size > 0
    requires forall i :: 0 <= i < |ops| ==> ops[i].0 != k
    ensures Search(InsertAll(New(size), ops), k) == None
  {
    NewIsEmpty(size);
    InsertAllPreservesValid(New(size), ops);
    InsertAllRefinesUpdateAll(New(size), ops);
    UpdateAllAbsent(map[], ops, k);
    SearchRefinesLookup(InsertAll(New(size), ops), k);
  }

  /** Searching a table filled from empty by `ops` for the key of insertion
      `i`, when no later insertion used that key, finds that insertion's
      number under a contact named after the key. */
  lemma {:induction false} SearchLastInserted(size: int, ops: seq<(string, string)>, i: nat)
    requires size > 0
    requires i < |ops|
    requires forall j :: i < j < |ops| ==> ops[j].0 != ops[i].0
    ensures Search(InsertAll(New(size), ops), ops[i].0) == Some(Contact(ops[i].0, ops[i].1))
  {
    NewIsEmpty(size);
    InsertAllPreservesValid(New(size), ops);
    InsertAllRefinesUpdateAll(New(size), ops);
    LastWrite(map[], ops, i);
    SearchRefinesLookup(InsertAll(New(size), ops), ops[i].0);
  }
}
