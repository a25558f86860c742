/**
 * The separate-chaining hash map from string keys to int values. The bucket array holds,
 * for every bucket, the chain of links from its head as a sequence of (key, value) pairs;
 * the map also keeps its number of links and of buckets. The hash function and the
 * maximum load are parameters of a map, fixed when it is made.
 */
module HashMaps {
  import opened Optional
  import opened HashChains

  /**
   * The resize test of hashMapPut: the load links / buckets exceeds the maximum num / den.
   * The floating point division of the original is replaced by cross-multiplication.
   */
  predicate LoadExceeds(links: int, buckets: int, num: int, den: int)
  {
    links * den > buckets * num
  }

  /** The cross-multiplied test is the comparison of the two ratios. */
  lemma LoadExceedsIsRatio(links: int, buckets: int, num: int, den: int)
    requires buckets > 0 && den > 0
    ensures LoadExceeds(links, buckets, num, den) <==> (links as real) / (buckets as real) > (num as real) / (den as real)
  {
    var x, y := (links as real) / (buckets as real), (num as real) / (den as real);
    assert x * (buckets as real) == links as real;
    assert y * (den as real) == num as real;
    var bd := (buckets as real) * (den as real);
    assert bd > 0.0;
    assert (links * den) as real == x * bd;
    assert (buckets * num) as real == y * bd;
  }

  /** Fewer links never exceed a load that more links stay within. */
  lemma LoadMonotone(fewer: int, more: int, buckets: int, num: int, den: int)
    requires fewer <= more && den > 0
    requires !LoadExceeds(more, buckets, num, den)
    ensures !LoadExceeds(fewer, buckets, num, den)
  {
    assert more * den - fewer * den == (more - fewer) * den;
  }

  /**
   * One link over a load that was within the maximum, spread over twice the buckets, is
   * within the maximum again, provided the maximum allows at least one link for all the
   * original buckets (den <= num * buckets).
   */
  lemma DoublingRestoresLoad(links: int, buckets: int, num: int, den: int)
    requires buckets > 0 && 0 < den <= num * buckets
    requires !LoadExceeds(links - 1, buckets, num, den)
    ensures !LoadExceeds(links, 2 * buckets, num, den)
  {
    assert links * den == (links - 1) * den + den;
    assert 2 * buckets * num == buckets * num + num * buckets;
  }

  /** More buckets leave room for at least as many links. */
  lemma MoreBuckets(buckets: int, buckets': int, num: int, den: int)
    requires 0 < buckets <= buckets' && 0 < den <= num * buckets
    ensures den <= num * buckets'
  {
    assert num * buckets' - num * buckets == num * (buckets' - buckets);
  }

  /** The position of the first link of `chain` carrying `key`, or |chain|: the walk of every lookup. */
  method FindInChain(chain: seq<Entry>, key: string) returns (j: int)
    ensures 0 <= j <= |chain|
    ensures forall j' :: 0 <= j' < j ==> chain[j'].0 != key
    ensures j < |chain| ==> chain[j].0 == key
  {
    j := 0;
    while j < |chain| && chain[j].0 != key
      invariant 0 <= j <= |chain|
      invariant forall j' :: 0 <= j' < j ==> chain[j'].0 != key
    {
      j := j + 1;
    }
  }

  class HashMap {
    var table: array<seq<Entry>>
    var size: int
    var capacity: int
    /** The key-to-value map the buckets represent. */
    ghost var Contents: map<string, int>
    const hash: string -> int
    /** The maximum load is loadNum / loadDen. */
    const loadNum: int
    const loadDen: int

    /** The buckets form a well-formed table holding Contents, whatever the load. */
    ghost predicate Consistent()
      reads this, table
    {
      && capacity == table.Length
      && 0 < loadDen <= loadNum * capacity
      && TableInvariant(table[..], hash, Contents, size)
    }

    /** The class invariant: well-formed, and the load within the maximum. */
    ghost predicate Valid()
      reads this, table
    {
      Consistent() && !LoadExceeds(size, capacity, loadNum, loadDen)
    }

    /** The bucket of `key`: the hash's C remainder, moved up by capacity when negative. */
    function IndexOf(key: string): (r: int)
      reads this
      requires capacity > 0
      ensures 0 <= r < capacity
    {
      BucketOf(hash, key, capacity)
    }

    /** hashMapNew / hashMapInit: `capacity` buckets, all empty, and no link. */
    constructor (capacity: int, hash: string -> int, loadNum: int, loadDen: int)
      requires capacity > 0 && 0 < loadDen <= loadNum * capacity
      ensures Valid() && fresh(table)
      ensures this.capacity == capacity && this.hash == hash && this.loadNum == loadNum && this.loadDen == loadDen
      ensures size == 0 && Contents == map[]
      ensures forall i :: 0 <= i < table.Length ==> table[i] == []
    {
      this.hash := hash;
      this.loadNum := loadNum;
      this.loadDen := loadDen;
      this.capacity := capacity;
      size := 0;
      var buckets := new seq<Entry>[capacity];
      var i := 0;
      while i < capacity
        invariant 0 <= i <= capacity
        invariant forall i' :: 0 <= i' < i ==> buckets[i'] == []
      {
        buckets[i] := [];
        i := i + 1;
      }
      table := buckets;
      Contents := map[];
      TotalLengthAllEmpty(buckets[..]);
    }

    /** hashMapGet: the value stored for `key`, or None when there is none. */
    method Get(key: string) returns (r: Option<int>)
      requires Valid()
      ensures r == MapGet(Contents, key)
    {
      var h := IndexOf(key);
      var chain := table[h];
      var j := FindInChain(chain, key);
      r := if j < |chain| then Some(chain[j].1) else None;
      LookupSkip(chain, key, j);
      assert Lookup(table[..][h], key) == MapGet(Contents, key);
      assert chain[j..] == [] || chain[j..][0] == chain[j];
    }

    /** hashMapContainsKey: 1 exactly when `key` has a value, 0 otherwise. */
    method ContainsKey(key: string) returns (r: int)
      requires Valid()
      ensures r == 0 || r == 1
      ensures r == 1 <==> key in Contents
    {
      var h := IndexOf(key);
      var chain := table[h];
      var j := FindInChain(chain, key);
      r := if j < |chain| then 1 else 0;
      LookupSkip(chain, key, j);
      assert Lookup(table[..][h], key) == MapGet(Contents, key);
      assert chain[j..] == [] || chain[j..][0] == chain[j];
    }

    /**
     * hashMapPut: overwrite the value of the link with `key` in place, or prepend a new link
     * to its bucket and count it; after an insertion that takes the load over the maximum,
     * resize to twice the buckets.
     */
    method Put(key: string, value: int)
      requires Valid()
      modifies this, table
      decreases if LoadExceeds(size + 1, capacity, loadNum, loadDen) then 3 else 0
      ensures Valid()
      ensures Contents == old(Contents)[key := value]
      ensures key in old(Contents) ==>
        && size == old(size) && capacity == old(capacity) && table == old(table)
        && table[..] == old(table[..])[old(IndexOf(key)) := Assign(old(table[IndexOf(key)]), key, value)]
      ensures key !in old(Contents) ==> size == old(size) + 1
      ensures key !in old(Contents) && !LoadExceeds(old(size) + 1, old(capacity), loadNum, loadDen) ==>
        && capacity == old(capacity) && table == old(table)
        && table[..] == old(table[..])[old(IndexOf(key)) := [(key, value)] + old(table[IndexOf(key)])]
      ensures key !in old(Contents) && LoadExceeds(old(size) + 1, old(capacity), loadNum, loadDen) ==>
        capacity == 2 * old(capacity) && fresh(table)
    {
      var h := IndexOf(key);
      var chain := table[h];
      var j := FindInChain(chain, key);
      ghost var buckets := table[..];
      LookupSkip(chain, key, j);
      assert Lookup(buckets[h], key) == MapGet(Contents, key);
      if j < |chain| {
        assert chain[j..][0] == chain[j];
        TableAssign(buckets, hash, Contents, size, key, value);
        AssignAt(chain, j, value);
        table[h] := chain[j := (key, value)];
        Contents := Contents[key := value];
        assert table[..] == buckets[h := Assign(chain, key, value)];
        return;
      }
      assert chain[j..] == [];
      TablePrepend(buckets, hash, Contents, size, key, value);
      table[h] := [(key, value)] + chain;
      size := size + 1;
      Contents := Contents[key := value];
      assert table[..] == buckets[h := [(key, value)] + chain];
      if LoadExceeds(size, capacity, loadNum, loadDen) {
        DoublingRestoresLoad(size, capacity, loadNum, loadDen);
        Resize(capacity * 2);
      }
    }

    /**
     * resizeTable: re-put every link, bucket by bucket and in chain order, into a fresh map
     * with `newCapacity` buckets, then take over its bucket array.
     */
    method Resize(newCapacity: int)
      requires Consistent() && newCapacity > capacity
      requires !LoadExceeds(size, newCapacity, loadNum, loadDen)
      modifies this
      decreases 2
      ensures Valid() && fresh(table)
      ensures capacity == newCapacity && size == old(size) && Contents == old(Contents)
    {
      MoreBuckets(capacity, newCapacity, loadNum, loadDen);
      var newMap := new HashMap(newCapacity, hash, loadNum, loadDen);
      ghost var buckets := table[..];
      var i := 0;
      while i < capacity
        invariant 0 <= i <= capacity
        invariant unchanged(this) && table[..] == buckets
        invariant fresh(newMap) && fresh(newMap.table) && newMap.Valid()
        invariant newMap.capacity == newCapacity && newMap.hash == hash
        invariant newMap.loadNum == loadNum && newMap.loadDen == loadDen
        invariant newMap.size == TotalLength(buckets[..i])
        invariant forall k :: MapGet(newMap.Contents, k) == Rehashed(buckets, hash, i, [], k)
      {
        TotalLengthStep(buckets, i);
        TotalLengthPrefix(buckets, i + 1);
        LoadMonotone(newMap.size + |table[i]|, size, newCapacity, loadNum, loadDen);
        newMap.PutChain(table[i], buckets, Contents, size, i);
        i := i + 1;
      }
      assert buckets[..i] == buckets;
      RehashDone(buckets, hash, Contents, size, newMap.Contents);
      table := newMap.table;
      capacity := newCapacity;
    }

    /**
     * The inner loop of resizeTable: put the links of bucket i of the table being resized,
     * in chain order, into this map, which holds the links of the buckets before i.
     */
    method PutChain(chain: seq<Entry>, ghost buckets: seq<seq<Entry>>, ghost contents: map<string, int>, ghost links: int, i: int)
      requires Valid()
      requires TableInvariant(buckets, hash, contents, links) && 0 <= i < |buckets| && chain == buckets[i]
      requires forall k :: MapGet(Contents, k) == Rehashed(buckets, hash, i, [], k)
      requires !LoadExceeds(size + |chain|, capacity, loadNum, loadDen)
      modifies this, table
      decreases 1
      ensures Valid() && table == old(table) && capacity == old(capacity)
      ensures size == old(size) + |chain|
      ensures forall k :: MapGet(Contents, k) == Rehashed(buckets, hash, i + 1, [], k)
    {
      var j := 0;
      while j < |chain|
        invariant 0 <= j <= |chain|
        invariant Valid() && table == old(table) && capacity == old(capacity)
        invariant size == old(size) + j
        invariant forall k :: MapGet(Contents, k) == Rehashed(buckets, hash, i, chain[..j], k)
      {
        RehashStep(buckets, hash, contents, links, i, j, Contents);
        LoadMonotone(size + 1, old(size) + |chain|, capacity, loadNum, loadDen);
        Put(chain[j].0, chain[j].1);
        j := j + 1;
      }
      assert chain[..j] == chain;
    }

    /** hashMapRemove: unlink the link with `key`, at the head or further down its chain; nothing else changes. */
    method Remove(key: string)
      requires Valid()
      modifies this, table
      ensures Valid()
      ensures table == old(table) && capacity == old(capacity)
      ensures Contents == old(Contents) - {key}
      ensures key in old(Contents) ==>
        size == old(size) - 1 && table[..] == old(table[..])[old(IndexOf(key)) := RemoveKey(old(table[IndexOf(key)]), key)]
      ensures key !in old(Contents) ==> size == old(size) && table[..] == old(table[..])
    {
      var h := IndexOf(key);
      var chain := table[h];
      var j := FindInChain(chain, key);
      ghost var buckets := table[..];
      LookupSkip(chain, key, j);
      assert Lookup(buckets[h], key) == MapGet(Contents, key);
      if j < |chain| {
        assert chain[j..][0] == chain[j];
        TableRemove(buckets, hash, Contents, size, key);
        FirstWithIs(chain, key, j);
        RemoveKeyAt(chain, key);
        table[h] := chain[..j] + chain[j + 1..];
        size := size - 1;
        Contents := Contents - {key};
        assert table[..] == buckets[h := RemoveKey(chain, key)];
        LoadMonotone(size, size + 1, capacity, loadNum, loadDen);
      } else {
        assert chain[j..] == [];
        assert Contents - {key} == Contents;
      }
    }

    /** hashMapSize: the number of links, which is the number of keys. */
    method Size() returns (r: int)
      requires Valid()
      ensures r == |Contents|
    {
      r := size;
    }

    /** hashMapCapacity: the number of buckets. */
    method Capacity() returns (r: int)
      requires Valid()
      ensures r == table.Length && r > 0
    {
      r := capacity;
    }

    /** hashMapEmptyBuckets: the number of buckets without a link; all of them exactly when the map is empty. */
    method EmptyBuckets() returns (r: int)
      requires Valid()
      ensures r == CountEmpty(table[..])
      ensures 0 <= r <= table.Length
      ensures table.Length - r <= |Contents|
      ensures r == table.Length <==> Contents == map[]
    {
      r := 0;
      var i := 0;
      while i < capacity
        invariant 0 <= i <= capacity
        invariant r == CountEmpty(table[..i])
      {
        TotalLengthStep(table[..], i);
        if table[i] == [] {
          r := r + 1;
        }
        i := i + 1;
      }
      assert table[..i] == table[..];
      CountEmptyBounds(table[..]);
    }

    /** hashMapTableLoad: the load as the pair (links, buckets) of the ratio links / buckets. */
    method TableLoad() returns (links: int, buckets: int)
      requires Valid()
      ensures links == |Contents| && buckets == table.Length && buckets > 0
      ensures !LoadExceeds(links, buckets, loadNum, loadDen)
    {
      links := size;
      buckets := capacity;
    }
  }
}
