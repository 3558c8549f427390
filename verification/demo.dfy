/** The demonstration run of the contact book: a table of ten buckets, five
    insertions (the last one re-inserting "Rebecca"), and two searches. */
module Demo {
  import opened Contacts
  import opened Hashing
  import opened Chains
  import opened HashTable

  /** The insertions of the demonstration, in order. */
  const Inserts: seq<(string, string)> := [
    ("John", "909-876-1234"),
    ("Rebecca", "111-555-0002"),
    ("Amy", "111-222-3333"),
    ("May", "222-333-1111"),
    ("Rebecca", "999-444-9999")
  ]

  /** The table after the first `n` insertions of the demonstration, one
      `Insert` call at a time, starting from a new table of ten buckets. */
  function After(n: nat): (t: Table)
    requires n <= |Inserts|
    ensures WellFormed(t) && t.size == 10
  {
    if n == 0 then New(10) else Insert(After(n - 1), Inserts[n - 1].0, Inserts[n - 1].1)
  }

  /** The bucket indices of the demonstration's names in a table of ten:
      "Amy" and "May" are anagrams and collide in bucket 5 with "Chris". */
  lemma DemoHashes()
    ensures CharSum("Amy") == 295 && CharSum("May") == 295 && CharSum("Chris") == 505
    ensures CharSum("John") == 399 && CharSum("Rebecca") == 677
    ensures Hash("Amy", 10) == 5 && Hash("May", 10) == 5 && Hash("Chris", 10) == 5
    ensures Hash("John", 10) == 9 && Hash("Rebecca", 10) == 7
  {
  }

  /** Each insertion of the demonstration, on any table of ten buckets whose
      bucket for the key holds what the earlier insertions left there: the
      key's bucket after the call, and buckets 5, 7 and 9 otherwise kept. */
  lemma InsertJohn(t: Table)
    requires WellFormed(t) && t.size == 10 && t.buckets[9] == []
    ensures var r := Insert(t, "John", "909-876-1234");
            && r.buckets[9] == [NewNode("John", "909-876-1234")]
            && r.buckets[5] == t.buckets[5] && r.buckets[7] == t.buckets[7]
  {
    assert Hash("John", 10) == 9;
  }

  lemma InsertRebecca(t: Table)
    requires WellFormed(t) && t.size == 10 && t.buckets[7] == []
    ensures var r := Insert(t, "Rebecca", "111-555-0002");
            && r.buckets[7] == [NewNode("Rebecca", "111-555-0002")]
            && r.buckets[5] == t.buckets[5] && r.buckets[9] == t.buckets[9]
  {
    assert Hash("Rebecca", 10) == 7;
  }

  lemma InsertAmy(t: Table)
    requires WellFormed(t) && t.size == 10 && t.buckets[5] == []
    ensures var r := Insert(t, "Amy", "111-222-3333");
            && r.buckets[5] == [NewNode("Amy", "111-222-3333")]
            && r.buckets[7] == t.buckets[7] && r.buckets[9] == t.buckets[9]
  {
    assert Hash("Amy", 10) == 5;
  }

  lemma InsertMay(t: Table)
    requires WellFormed(t) && t.size == 10
    requires t.buckets[5] == [NewNode("Amy", "111-222-3333")]
    ensures var r := Insert(t, "May", "222-333-1111");
            && r.buckets[5] == [NewNode("Amy", "111-222-3333"), NewNode("May", "222-333-1111")]
            && r.buckets[7] == t.buckets[7] && r.buckets[9] == t.buckets[9]
  {
    assert Hash("May", 10) == 5;
    assert FirstIndex(t.buckets[5], "May") == 1;
  }

  lemma InsertRebeccaAgain(t: Table)
    requires WellFormed(t) && t.size == 10
    requires t.buckets[7] == [NewNode("Rebecca", "111-555-0002")]
    ensures var r := Insert(t, "Rebecca", "999-444-9999");
            && r.buckets[7] == [NewNode("Rebecca", "999-444-9999")]
            && r.buckets[5] == t.buckets[5] && r.buckets[9] == t.buckets[9]
  {
    assert Hash("Rebecca", 10) == 7;
    assert FirstIndex(t.buckets[7], "Rebecca") == 0;
  }

  /** Buckets 5, 7 and 9 after the first two insertions. */
  lemma AfterTwo()
    ensures After(2).buckets[5] == []
    ensures After(2).buckets[7] == [NewNode("Rebecca", "111-555-0002")]
    ensures After(2).buckets[9] == [NewNode("John", "909-876-1234")]
  {
    assert Inserts[0] == ("John", "909-876-1234");
    InsertJohn(After(0));
    assert Inserts[1] == ("Rebecca", "111-555-0002");
    InsertRebecca(After(1));
  }

  /** Buckets 5, 7 and 9 after the first three insertions. */
  lemma AfterThree()
    ensures After(3).buckets[5] == [NewNode("Amy", "111-222-3333")]
    ensures After(3).buckets[7] == [NewNode("Rebecca", "111-555-0002")]
    ensures After(3).buckets[9] == [NewNode("John", "909-876-1234")]
  {
    AfterTwo();
    assert Inserts[2] == ("Amy", "111-222-3333");
    InsertAmy(After(2));
  }

  /** Buckets 5, 7 and 9 after the first four insertions. */
  lemma AfterFour()
    ensures After(4).buckets[5] == [NewNode("Amy", "111-222-3333"), NewNode("May", "222-333-1111")]
    ensures After(4).buckets[7] == [NewNode("Rebecca", "111-555-0002")]
    ensures After(4).buckets[9] == [NewNode("John", "909-876-1234")]
  {
    AfterThree();
    assert Inserts[3] == ("May", "222-333-1111");
    InsertMay(After(3));
  }

  /** The table after the demonstration's insertions: "Amy" then "May" chained
      in bucket 5, "Rebecca" alone in bucket 7 with the updated number at the
      position she held before her re-insertion, "John" alone in bucket 9. */
  lemma DemoTable()
    ensures After(4).buckets[7] == [NewNode("Rebecca", "111-555-0002")]
    ensures After(5).buckets[5] == [NewNode("Amy", "111-222-3333"), NewNode("May", "222-333-1111")]
    ensures After(5).buckets[7] == [NewNode("Rebecca", "999-444-9999")]
    ensures After(5).buckets[9] == [NewNode("John", "909-876-1234")]
  {
    AfterFour();
    assert Inserts[4] == ("Rebecca", "999-444-9999");
    InsertRebeccaAgain(After(4));
  }

  /** The demonstration's searches on any table of ten buckets whose
      buckets 5, 7 and 9 hold what the demonstration leaves there. */
  lemma SearchesIn(t: Table)
    requires WellFormed(t) && t.size == 10
    requires t.buckets[5] == [NewNode("Amy", "111-222-3333"), NewNode("May", "222-333-1111")]
    requires t.buckets[7] == [NewNode("Rebecca", "999-444-9999")]
    requires t.buckets[9] == [NewNode("John", "909-876-1234")]
    ensures Search(t, "John") == Some(Contact("John", "909-876-1234"))
    ensures Search(t, "Rebecca") == Some(Contact("Rebecca", "999-444-9999"))
    ensures Search(t, "Amy") == Some(Contact("Amy", "111-222-3333"))
    ensures Search(t, "May") == Some(Contact("May", "222-333-1111"))
    ensures Search(t, "Chris") == None
  {
    DemoHashes();
    assert FirstIndex(t.buckets[5], "May") == 1;
    assert FirstIndex(t.buckets[5], "Chris") == 2;
  }

  /** The demonstration's searches: "John" is found with his number,
      "Rebecca" with the number of her second insertion, "Amy" and "May"
      despite their collision, and "Chris", never inserted, is absent. */
  lemma DemoSearches()
    ensures var t := After(5);
            && Search(t, "John") == Some(Contact("John", "909-876-1234"))
            && Search(t, "Rebecca") == Some(Contact("Rebecca", "999-444-9999"))
            && Search(t, "Amy") == Some(Contact("Amy", "111-222-3333"))
            && Search(t, "May") == Some(Contact("May", "222-333-1111"))
            && Search(t, "Chris") == None
  {
    DemoTable();
    SearchesIn(After(5));
  }
}
