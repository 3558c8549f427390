# Contact book on a separate-chaining hash table

This project models, in Dafny, a small contact book that maps a contact's
name to a phone number with a hash table. The table has a fixed number of
buckets. A key's bucket is the sum of its character codes modulo the number
of buckets. Keys that collide share a bucket, where they are kept as a chain
in insertion order. Inserting a key that is already present replaces that
contact's number in place. Inserting a new key creates a one-node chain in
an empty bucket, or appends a node at the tail of a non-empty one. Searching
walks the key's chain and returns the first contact whose key matches, or
nothing.

The model is functional. A table is a value `Table(size, buckets)` whose
buckets are sequences of `Node(key, Contact(name, number))`. Each sequence is
in chain order, so a node needs no `next` link. `Insert` and `Search` are pure
functions. Two loop methods, `SearchChain` and `InsertIntoChain`, follow the
source's pointer walks and are proved equal to the pure chain functions.

The central result is a refinement. `View(t)` is the `map<string, string>`
a table stands for. Under the invariant `Valid`, the following hold:

- insertion is the map update `m[key := number]`;
- search returns the mapped number when the key is present and `None` otherwise;
- a new table is the empty map.

`Valid` says three things. Every node sits in the bucket its key hashes to. Keys
are unique within a bucket. Every contact is named after its key.

Files:

- `contacts.dfy`: the `Contact` and `Node` records and `Option`.
- `hashing.dfy`: the character sum, the bucket index, and the proof that the
  index depends only on the multiset of characters.
- `chains.dfy`: one bucket's chain, the nodes an insertion creates or updates,
  its lookup walk, its insert-or-update walk, and its key-to-number view.
- `hash_table.dfy`: the table, its invariants, construction, insertion, search
  and the refinement lemmas.
- `demo.dfy`: the demonstration run as lemmas. It uses ten buckets and five
  insertions, replayed one `Insert` call at a time. The last insertion
  re-inserts "Rebecca". It then searches for "John" and "Chris".

## Model

| member | source | states |
|---|---|---|
| Hashing.Hash | hash_table.py:46-48 | For a positive size, the bucket index of every key lies in `[0, size)`. |
| Hashing.CharSumPermutation | hash_table.py:48 | The character sum depends only on the multiset of the key's characters, so reordering them leaves it unchanged. |
| Hashing.AnagramsCollide | hash_table.py:46-48 | Two keys that are anagrams of each other get the same bucket index for every positive size. |
| Chains.FirstIndex | hash_table.py:59-66 | The walk for a key stops at the first node with that key: every earlier node has a different key. When no node has the key, it stops at the end of the chain. |
| Chains.NewNode | hash_table.py:52-53 | A freshly inserted node, taken as a one-node chain, stands for the single entry mapping the key to the inserted number, and its contact is named after the key. |
| Chains.WithNumber | hash_table.py:62 | Updating a node's number changes its chain entry to the new number under the same key, and the contact keeps its name. |
| Chains.Find | hash_table.py:72-76 | The chain walk returns the contact of the first node whose key matches, or `None` when no node in the chain has the key. |
| Chains.SearchChain | hash_table.py:71-76 | The search loop returns exactly what the chain lookup `Find` specifies. |
| Chains.UpdateOrAppend | hash_table.py:57-67 | When the key is present, the result is the chain with only the first matching node's number replaced, so length, key order and all other nodes are unchanged. When it is absent, the result is the chain with one new node for the key appended at the tail. |
| Chains.InsertIntoChain | hash_table.py:55-67 | The insertion loop gives an empty bucket a one-node chain. Otherwise it produces exactly the update-or-append chain. |
| Chains.FindAgreesWithView | hash_table.py:72-76 | A key is in a chain's map view exactly when some node has it, and the chain walk finds the number the view holds. |
| Chains.UpdateOrAppendView | hash_table.py:58-67 | The map view after updating or appending a key is the old view with that key mapped to the new number. |
| Chains.UpdateOrAppendPreserves | hash_table.py:58-67 | Every node after an update or append keeps the key at its position or holds the inserted key. Keys stay unique within the chain and contacts stay named after their keys. |
| HashTable.New | hash_table.py:42-44 | A new table has exactly `size` buckets, all empty, and satisfies every table invariant. |
| HashTable.NewIsEmpty | hash_table.py:42-44 | A new table stands for the empty map. |
| HashTable.Insert | hash_table.py:50-67 | Only bucket `Hash(key)` changes. An empty bucket becomes the one-node chain `(key, number)`. A present key has only its first node's number replaced, in place. An absent key gets one new node appended at the tail. |
| HashTable.Search | hash_table.py:69-76 | Search looks only in bucket `Hash(key)`. It returns the contact of the first node there whose key matches, or `None` when no node in that bucket has the key. |
| HashTable.InsertPreservesValid | hash_table.py:50-67 | Insertion keeps every node in its key's bucket, keeps keys unique within each bucket, and keeps each contact named after its key. |
| HashTable.ViewLookup | hash_table.py:69-71 | In a valid table, a key's entry in the abstract map is its entry in the view of the one bucket it hashes to. |
| HashTable.InsertRefinesUpdate | hash_table.py:50-67 | Inserting `(key, number)` into a valid table maps to the map update `m[key := number]`. |
| HashTable.SearchRefinesLookup | hash_table.py:69-76 | Searching a valid table returns `Contact(key, m[key])` when the key is in the abstract map `m`, and `None` otherwise. |
| HashTable.SearchAfterInsert | hash_table.py:50-76 | After inserting `(key, number)`, searching `key` finds `number`, and searching any other key gives the same result as before. |
| HashTable.InsertAllPreservesValid | hash_table.py:50-67 | Any sequence of insertions into a valid table leaves it valid. |
| HashTable.InsertAllRefinesUpdateAll | hash_table.py:50-76 | A sequence of insertions into a valid table maps to the same sequence of updates of its abstract map. |
| HashTable.SearchNeverInserted | hash_table.py:50-76 | After any sequence of insertions into a new table, searching a key that no insertion used gives `None`. |
| HashTable.SearchLastInserted | hash_table.py:50-76 | After any sequence of insertions into a new table, searching a key finds a contact named after it with the number of that key's last insertion. |
| Demo.DemoHashes | hash_table.py:96-106 | In a table of ten buckets, "Amy" and "May" both sum to 295 and "Chris" sums to 505, so all three fall in bucket 5. "John" sums to 399 and falls in bucket 9. "Rebecca" sums to 677 and falls in bucket 7. |
| Demo.DemoTable | hash_table.py:93-100 | After the first four insertions, bucket 7 holds "Rebecca" alone with her first number. After all five, bucket 5 chains "Amy" then "May" and bucket 9 holds "John". Bucket 7 still holds "Rebecca" alone, at the same position, with the updated number. |
| Demo.DemoSearches | hash_table.py:104-106 | After the demonstration's insertions, "John" is found with 909-876-1234 and "Rebecca" with 999-444-9999. "Amy" and "May" are both found despite their collision. "Chris" is absent. |

## Left out

- `print_table` (hash_table.py:78-88) and the printing in the demonstration block (hash_table.py:92-106) are console output. The demonstration's insertions and searches are kept, as the `Demo` lemmas.
- `Contact.__str__` (hash_table.py:13-14) only formats a contact for display.
- Re-insertion in the source changes the number of the shared mutable `Contact` object (hash_table.py:62). The model replaces the stored number of that key's node instead. No other reference to the contact object is modelled.
- A table size of zero or less is not modelled. The source does not check the size. `HashTable(0)` constructs, and then the first hash raises a modulo-by-zero error. With a negative size, the index is non-positive and indexes an empty list. `New` therefore requires `size > 0`. `Insert` and `Search` require `WellFormed`, meaning a positive size and exactly that many buckets, which is what the source needs to index a bucket. The model adds no configuration error of its own.
- Search not changing the table needs no separate statement, because tables are immutable values in the model.
- Character codes: `ord` is modelled as the code of a Dafny `char`, which is a Unicode scalar value. Python strings may also contain lone surrogate code points, which a Dafny string cannot hold.
- Python integers are unbounded, so the character sum and the modulo are modelled in unbounded arithmetic with no wrap-around. The sum is non-negative and the size is positive, so Python's floor modulo and Dafny's Euclidean modulo agree.
