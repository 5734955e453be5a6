/** Batch queries: fetch the rows of many keys at once, then put them in the order of the keys. */
module BatchQueries {
  import opened Wrappers
  import opened Strings
  import opened Windows
  import opened Ids

  /** The row a map filled row by row holds for `key`: the last one with that key. */
  function Lookup<K(==), V>(rows: seq<V>, keyOf: V -> K, key: K): Option<V> {
    if rows == [] then None
    else
      var later := Lookup(rows[1..], keyOf, key);
      if later.Some? then later else if keyOf(rows[0]) == key then Some(rows[0]) else None
  }

  function Batch<K(==), V>(table: seq<V>, keyOf: V -> K, keys: seq<K>): seq<Option<V>> {
    seq(|keys|, i requires 0 <= i < |keys| => Lookup(table, keyOf, keys[i]))
  }

  /** The first loop of the batch queries: later rows replace earlier ones of their key. */
  method ByKey<K(==, !new), V>(rows: seq<V>, keyOf: V -> K) returns (keyToRow: map<K, V>)
    ensures Holds(keyToRow, rows, keyOf)
  {
    keyToRow := map[];
    for i := 0 to |rows|
      invariant Holds(keyToRow, rows[..i], keyOf)
    {
      assert rows[..i + 1] == rows[..i] + [rows[i]];
      HoldsStep(keyToRow, rows[..i], rows[i], keyOf);
      keyToRow := keyToRow[keyOf(rows[i]) := rows[i]];
    }
    assert rows[..|rows|] == rows;
  }

  /** The shape all batch queries share; the WHERE clause keeps the rows whose key was asked for. */
  method QueryByKeys<K(==, !new), V>(table: seq<V>, keyOf: V -> K, keys: seq<K>) returns (result: seq<Option<V>>)
    ensures result == Batch(table, keyOf, keys)
  {
    if |keys| == 0 {
      return [];
    }
    var asked := (v: V) => keyOf(v) in keys;
    var rows := Filter(table, asked);
    var keyToRow := ByKey(rows, keyOf);
    result := [];
    for i := 0 to |keys|
      invariant result == Batch(table, keyOf, keys)[..i]
    {
      LookupFiltered(table, keyOf, keys, asked, keys[i]);
      assert Get(keyToRow, keys[i]) == Lookup(rows, keyOf, keys[i]);
      if keys[i] in keyToRow {
        result := result + [Some(keyToRow[keys[i]])];
      } else {
        result := result + [None];
      }
    }
  }

  function Get<K(==), V>(m: map<K, V>, key: K): Option<V> {
    if key in m then Some(m[key]) else None
  }

  ghost predicate Holds<K(!new), V>(m: map<K, V>, rows: seq<V>, keyOf: V -> K) {
    forall k :: Get(m, k) == Lookup(rows, keyOf, k)
  }

  lemma HoldsStep<K(!new), V>(m: map<K, V>, rows: seq<V>, row: V, keyOf: V -> K)
    requires Holds(m, rows, keyOf)
    ensures Holds(m[keyOf(row) := row], rows + [row], keyOf)
  {
    forall k ensures Get(m[keyOf(row) := row], k) == Lookup(rows + [row], keyOf, k) {
      LookupLast(rows, row, keyOf, k);
    }
  }

  lemma {:induction false} LookupLast<K, V>(rows: seq<V>, last: V, keyOf: V -> K, key: K)
    ensures Lookup(rows + [last], keyOf, key) == if keyOf(last) == key then Some(last) else Lookup(rows, keyOf, key)
  {
    if rows == [] {
      assert rows + [last] == [last];
    } else {
      LookupLast(rows[1..], last, keyOf, key);
      assert (rows + [last])[1..] == rows[1..] + [last];
    }
  }

  lemma {:induction false} LookupFiltered<K, V>(table: seq<V>, keyOf: V -> K, keys: seq<K>, asked: V -> bool, key: K)
    requires key in keys && forall v <- table :: asked(v) <==> keyOf(v) in keys
    ensures Lookup(Filter(table, asked), keyOf, key) == Lookup(table, keyOf, key)
  {
    if table != [] {
      LookupFiltered(table[1..], keyOf, keys, asked, key);
      var kept := Filter(table[1..], asked);
      if asked(table[0]) {
        assert ([table[0]] + kept)[1..] == kept;
      } else {
        assert [] + kept == kept;
      }
    }
  }

  ghost predicate UniqueKeys<K, V>(rows: seq<V>, keyOf: V -> K) {
    forall i, j :: 0 <= i < j < |rows| ==> keyOf(rows[i]) != keyOf(rows[j])
  }

  lemma {:induction false} LookupSound<K, V>(rows: seq<V>, keyOf: V -> K, key: K)
    ensures match Lookup(rows, keyOf, key)
            case Some(v) => v in rows && keyOf(v) == key
            case None => forall v <- rows :: keyOf(v) != key
  {
    if rows != [] {
      LookupSound(rows[1..], keyOf, key);
    }
  }

  /** With unique keys, each answer is the one row of its key, or nothing when there is none. */
  lemma BatchPointwise<K, V>(table: seq<V>, keyOf: V -> K, keys: seq<K>, i: nat, v: V)
    requires UniqueKeys(table, keyOf) && i < |keys|
    ensures |Batch(table, keyOf, keys)| == |keys|
    ensures Batch(table, keyOf, keys)[i] == Some(v) <==> v in table && keyOf(v) == keys[i]
  {
    LookupSound(table, keyOf, keys[i]);
    if v in table && keyOf(v) == keys[i] {
      var w := Lookup(table, keyOf, keys[i]).value;
      var j :| 0 <= j < |table| && table[j] == v;
      var k :| 0 <= k < |table| && table[k] == w;
      assert j == k;
    }
  }

  /** Any split of a batch into smaller batches gives the same answers. */
  lemma BatchSplits<K, V>(table: seq<V>, keyOf: V -> K, a: seq<K>, b: seq<K>)
    ensures Batch(table, keyOf, a + b) == Batch(table, keyOf, a) + Batch(table, keyOf, b)
  {
  }

  // ------------------------------------------------- blocks by hash

  datatype Block = Block(height: int, hash: string)

  function Uppers(hashes: seq<string>): seq<string> {
    seq(|hashes|, i requires 0 <= i < |hashes| => ToUpper(hashes[i]))
  }

  function StoredHash(b: Block): string { b.hash }

  /** The block is stored under the upper-case form of the hash. */
  predicate IsStored(b: Block, blocks: seq<Block>, hash: string) { b in blocks && b.hash == ToUpper(hash) }

  lemma BlocksPointwise(blocks: seq<Block>, hashes: seq<string>)
    requires UniqueKeys(blocks, StoredHash)
    ensures var result := Batch(blocks, StoredHash, Uppers(hashes));
            |result| == |hashes|
            && forall i, b :: 0 <= i < |hashes| ==> (result[i] == Some(b) <==> IsStored(b, blocks, hashes[i]))
  {
    var result := Batch(blocks, StoredHash, Uppers(hashes));
    forall i, b | 0 <= i < |hashes| ensures result[i] == Some(b) <==> IsStored(b, blocks, hashes[i]) {
      BatchPointwise(blocks, StoredHash, Uppers(hashes), i, b);
    }
  }

  /** Each answer is the block whose stored hash is the upper-case form of the hash at its place. */
  method QueryBlocksByHashes(blocks: seq<Block>, hashes: seq<string>) returns (result: seq<Option<Block>>)
    ensures result == Batch(blocks, StoredHash, Uppers(hashes))
    ensures |result| == |hashes|
    ensures UniqueKeys(blocks, StoredHash)
        ==> forall i, b :: 0 <= i < |hashes| ==> (result[i] == Some(b) <==> IsStored(b, blocks, hashes[i]))
  {
    if UniqueKeys(blocks, StoredHash) {
      BlocksPointwise(blocks, hashes);
    }
    if |hashes| == 0 {
      return [];
    }
    var uppercasedHashes: seq<string> := [];
    for i := 0 to |hashes|
      invariant uppercasedHashes == Uppers(hashes)[..i]
    {
      uppercasedHashes := uppercasedHashes + [ToUpper(hashes[i])];
    }
    result := QueryByKeys(blocks, StoredHash, uppercasedHashes);
  }

  /** A block is found again through its printed node id exactly when its stored hash has no
      lower-case letter: parsing lowers the hash and the query raises it. */
  lemma BlockFoundByNodeId(blocks: seq<Block>, block: Block)
    requires UniqueKeys(blocks, StoredHash) && block in blocks && '_' !in block.hash
    ensures ParseNodeId(NodeText(NodeId("block", block.hash))) == Some(NodeId("block", ToLower(block.hash)))
    ensures Batch(blocks, StoredHash, Uppers([ToLower(block.hash)])) == [Some(block)]
       <==> forall c <- block.hash :: !('a' <= c <= 'z')
  {
    NodeTextParses(NodeId("block", block.hash));
    UpperOfLower(block.hash);
    var keys := Uppers([ToLower(block.hash)]);
    BatchPointwise(blocks, StoredHash, keys, 0, block);
    assert keys[0] == ToUpper(block.hash);
  }
}
