/**
 * Buckets and whole tables of the hash map as values: a bucket is the chain of links
 * from its head, in order, as (key, value) pairs. These are the functions the class
 * HashMap is specified with, and the lemmas its methods use.
 */
module HashChains {
  import opened Optional
  import opened CRemainder

  /** A link of a chain: its key and its value. */
  type Entry = (string, int)

  /** The bucket `key` belongs to in a table of `capacity` buckets. */
  function BucketOf(hash: string -> int, key: string, capacity: int): (r: int)
    requires capacity > 0
    ensures 0 <= r < capacity
  {
    BucketIndex(hash(key), capacity)
  }

  // ---------------------------------------------------------------- chains

  /** The value a walk of the chain from its head finds for `key`: that of the first matching link. */
  function Lookup(chain: seq<Entry>, key: string): Option<int>
  {
    if chain == [] then None
    else if chain[0].0 == key then Some(chain[0].1)
    else Lookup(chain[1..], key)
  }

  predicate NoDuplicateKeys(chain: seq<Entry>)
  {
    forall j, j' :: 0 <= j < j' < |chain| ==> chain[j].0 != chain[j'].0
  }

  /** The chain after the value of every link with key `key` is overwritten by `value`. */
  function Assign(chain: seq<Entry>, key: string, value: int): (r: seq<Entry>)
  {
    seq(|chain|, j requires 0 <= j < |chain| => if chain[j].0 == key then (key, value) else chain[j])
  }

  /** The chain after the first link with key `key`, if any, is unlinked. */
  function RemoveKey(chain: seq<Entry>, key: string): seq<Entry>
  {
    if chain == [] then []
    else if chain[0].0 == key then chain[1..]
    else [chain[0]] + RemoveKey(chain[1..], key)
  }

  /** Links before position `j` that do not match leave the walk's result to the rest of the chain. */
  lemma {:induction false} LookupSkip(chain: seq<Entry>, key: string, j: nat)
    requires j <= |chain|
    requires forall j' :: 0 <= j' < j ==> chain[j'].0 != key
    ensures Lookup(chain, key) == Lookup(chain[j..], key)
  {
    if j > 0 {
      LookupSkip(chain[1..], key, j - 1);
      assert chain[1..][j - 1..] == chain[j..];
    }
  }

  /** The walk finds nothing exactly when no link carries the key. */
  lemma {:induction false} LookupNone(chain: seq<Entry>, key: string)
    ensures Lookup(chain, key) == None <==> forall j :: 0 <= j < |chain| ==> chain[j].0 != key
  {
    if chain != [] {
      LookupNone(chain[1..], key);
      if chain[0].0 != key {
        forall j | 1 <= j < |chain| ensures chain[j].0 == chain[1..][j - 1].0 { }
      }
    }
  }

  /** In a chain without duplicate keys, the walk for a link's key finds that link's value. */
  lemma LookupAt(chain: seq<Entry>, j: nat)
    requires NoDuplicateKeys(chain) && j < |chain|
    ensures Lookup(chain, chain[j].0) == Some(chain[j].1)
  {
    LookupSkip(chain, chain[j].0, j);
  }

  /** Appending a link changes the walk's result only for a key it did not find before. */
  lemma {:induction false} LookupAppend(chain: seq<Entry>, e: Entry, key: string)
    ensures Lookup(chain + [e], key) ==
      if Lookup(chain, key).Some? then Lookup(chain, key)
      else if e.0 == key then Some(e.1) else None
  {
    if chain == [] {
      assert [] + [e] == [e];
      assert [e][1..] == [];
    } else {
      assert (chain + [e])[1..] == chain[1..] + [e];
      LookupAppend(chain[1..], e, key);
    }
  }

  /** Overwriting the value of the link with `key` changes the walk for `key` only. */
  lemma AssignLookup(chain: seq<Entry>, key: string, value: int, k: string)
    requires Lookup(chain, key).Some?
    ensures Lookup(Assign(chain, key, value), k) == if k == key then Some(value) else Lookup(chain, k)
  {
    var a := Assign(chain, key, value);
    if k == key {
      LookupSkipFirst(chain, key);
      var p := FirstWith(chain, key);
      LookupSkip(a, key, p);
    } else {
      AssignOther(chain, key, value, k);
    }
  }

  /** The position of the first link carrying `key`, or the chain's length if there is none. */
  function FirstWith(chain: seq<Entry>, key: string): (p: nat)
    ensures p <= |chain|
    ensures forall j :: 0 <= j < p ==> chain[j].0 != key
    ensures p < |chain| ==> chain[p].0 == key
  {
    if chain == [] then 0
    else if chain[0].0 == key then 0
    else FirstWith(chain[1..], key) + 1
  }

  /** The first matching position is unique: any position with its three properties is it. */
  lemma FirstWithIs(chain: seq<Entry>, key: string, j: nat)
    requires j <= |chain|
    requires forall j' :: 0 <= j' < j ==> chain[j'].0 != key
    requires j < |chain| ==> chain[j].0 == key
    ensures FirstWith(chain, key) == j
  {
  }

  lemma LookupSkipFirst(chain: seq<Entry>, key: string)
    ensures Lookup(chain, key) == if FirstWith(chain, key) < |chain| then Some(chain[FirstWith(chain, key)].1) else None
  {
    LookupSkip(chain, key, FirstWith(chain, key));
  }

  lemma {:induction false} AssignOther(chain: seq<Entry>, key: string, value: int, k: string)
    requires k != key
    ensures Lookup(Assign(chain, key, value), k) == Lookup(chain, k)
  {
    if chain != [] {
      assert Assign(chain, key, value)[1..] == Assign(chain[1..], key, value);
      AssignOther(chain[1..], key, value, k);
    }
  }

  /** With distinct keys, overwriting the matching link in place is the same as Assign. */
  lemma AssignAt(chain: seq<Entry>, j: nat, value: int)
    requires NoDuplicateKeys(chain) && j < |chain|
    ensures chain[j := (chain[j].0, value)] == Assign(chain, chain[j].0, value)
  {
  }

  /** Unlinking the first link with `key` removes `key` and no other key. */
  lemma {:induction false} RemoveKeyLookup(chain: seq<Entry>, key: string, k: string)
    requires NoDuplicateKeys(chain)
    ensures Lookup(RemoveKey(chain, key), k) == if k == key then None else Lookup(chain, k)
  {
    if chain != [] {
      assert NoDuplicateKeys(chain[1..]);
      if chain[0].0 == key {
        if k == key {
          LookupNone(chain[1..], key);
        }
      } else {
        RemoveKeyLookup(chain[1..], key, k);
        assert ([chain[0]] + RemoveKey(chain[1..], key))[1..] == RemoveKey(chain[1..], key);
      }
    }
  }

  /** RemoveKey is the chain without the link at the first position carrying `key`. */
  lemma {:induction false} RemoveKeyAt(chain: seq<Entry>, key: string)
    ensures FirstWith(chain, key) < |chain| ==>
      RemoveKey(chain, key) == chain[..FirstWith(chain, key)] + chain[FirstWith(chain, key) + 1..]
    ensures FirstWith(chain, key) == |chain| ==> RemoveKey(chain, key) == chain
  {
    if chain != [] && chain[0].0 != key {
      RemoveKeyAt(chain[1..], key);
      var p := FirstWith(chain[1..], key);
      if p < |chain| - 1 {
        assert chain[..p + 1] == [chain[0]] + chain[1..][..p];
        assert chain[p + 2..] == chain[1..][p + 1..];
      }
    }
  }

  // ---------------------------------------------------------------- whole tables

  /** The number of links over all buckets. */
  function TotalLength(buckets: seq<seq<Entry>>): nat
  {
    if buckets == [] then 0 else TotalLength(buckets[..|buckets| - 1]) + |buckets[|buckets| - 1]|
  }

  /** The number of buckets without a link. */
  function CountEmpty(buckets: seq<seq<Entry>>): nat
  {
    if buckets == [] then 0
    else CountEmpty(buckets[..|buckets| - 1]) + (if buckets[|buckets| - 1] == [] then 1 else 0)
  }

  /** All links, bucket after bucket and in chain order within a bucket. */
  function Links(buckets: seq<seq<Entry>>): seq<Entry>
  {
    if buckets == [] then [] else Links(buckets[..|buckets| - 1]) + buckets[|buckets| - 1]
  }

  lemma {:induction false} TotalLengthUpdate(buckets: seq<seq<Entry>>, h: nat, c: seq<Entry>)
    requires h < |buckets|
    ensures TotalLength(buckets[h := c]) == TotalLength(buckets) - |buckets[h]| + |c|
  {
    var n := |buckets|;
    var b' := buckets[h := c];
    assert b'[..n - 1] == if h == n - 1 then buckets[..n - 1] else buckets[..n - 1][h := c];
    if h < n - 1 {
      TotalLengthUpdate(buckets[..n - 1], h, c);
    }
  }

  lemma TotalLengthStep(buckets: seq<seq<Entry>>, i: nat)
    requires i < |buckets|
    ensures TotalLength(buckets[..i + 1]) == TotalLength(buckets[..i]) + |buckets[i]|
    ensures Links(buckets[..i + 1]) == Links(buckets[..i]) + buckets[i]
    ensures CountEmpty(buckets[..i + 1]) == CountEmpty(buckets[..i]) + if buckets[i] == [] then 1 else 0
  {
    assert buckets[..i + 1][..i] == buckets[..i];
  }

  lemma {:induction false} TotalLengthPrefix(buckets: seq<seq<Entry>>, i: nat)
    requires i <= |buckets|
    ensures TotalLength(buckets[..i]) <= TotalLength(buckets)
    decreases |buckets| - i
  {
    if i < |buckets| {
      TotalLengthStep(buckets, i);
      TotalLengthPrefix(buckets, i + 1);
    } else {
      assert buckets[..i] == buckets;
    }
  }

  /** A table whose buckets are all empty holds no link. */
  lemma {:induction false} TotalLengthAllEmpty(buckets: seq<seq<Entry>>)
    requires forall i :: 0 <= i < |buckets| ==> buckets[i] == []
    ensures TotalLength(buckets) == 0 && CountEmpty(buckets) == |buckets|
  {
    if buckets != [] {
      TotalLengthAllEmpty(buckets[..|buckets| - 1]);
    }
  }

  /**
   * Empty buckets are at most all buckets; every non-empty bucket holds at least one link;
   * and all buckets are empty exactly when there is no link.
   */
  lemma {:induction false} CountEmptyBounds(buckets: seq<seq<Entry>>)
    ensures CountEmpty(buckets) <= |buckets|
    ensures |buckets| - CountEmpty(buckets) <= TotalLength(buckets)
    ensures CountEmpty(buckets) == |buckets| <==> TotalLength(buckets) == 0
  {
    if buckets != [] {
      CountEmptyBounds(buckets[..|buckets| - 1]);
    }
  }

  // ---------------------------------------------------------------- the table invariant

  /** Every link sits in the bucket its key hashes to. */
  ghost predicate WellPlaced(buckets: seq<seq<Entry>>, hash: string -> int)
    requires |buckets| > 0
  {
    forall i, j :: 0 <= i < |buckets| && 0 <= j < |buckets[i]| ==> BucketOf(hash, buckets[i][j].0, |buckets|) == i
  }

  /** No key occurs twice in a chain (so, with WellPlaced, nowhere twice). */
  ghost predicate ChainsDistinct(buckets: seq<seq<Entry>>)
  {
    forall i :: 0 <= i < |buckets| ==> NoDuplicateKeys(buckets[i])
  }

  /** The walk of each key's bucket finds exactly the value the abstract map holds for it. */
  ghost predicate Represents(buckets: seq<seq<Entry>>, hash: string -> int, contents: map<string, int>)
    requires |buckets| > 0
  {
    forall key :: Lookup(buckets[BucketOf(hash, key, |buckets|)], key) == MapGet(contents, key)
  }

  /** The buckets form a well-formed hash table for `hash` holding `contents`, with `size` links. */
  ghost predicate TableInvariant(buckets: seq<seq<Entry>>, hash: string -> int, contents: map<string, int>, size: int)
  {
    && |buckets| > 0
    && WellPlaced(buckets, hash)
    && ChainsDistinct(buckets)
    && Represents(buckets, hash, contents)
    && size == TotalLength(buckets)
    && size == |contents|
  }

  /** Every link of a well-formed table is an entry of the abstract map. */
  lemma TableEntry(buckets: seq<seq<Entry>>, hash: string -> int, contents: map<string, int>, size: int, i: nat, j: nat)
    requires TableInvariant(buckets, hash, contents, size)
    requires i < |buckets| && j < |buckets[i]|
    ensures buckets[i][j].0 in contents && contents[buckets[i][j].0] == buckets[i][j].1
  {
    var key := buckets[i][j].0;
    assert BucketOf(hash, key, |buckets|) == i;
    LookupAt(buckets[i], j);
    assert Lookup(buckets[BucketOf(hash, key, |buckets|)], key) == MapGet(contents, key);
  }

  /** A key is in the abstract map exactly when the walk of its bucket reaches a link carrying it. */
  lemma TableMember(buckets: seq<seq<Entry>>, hash: string -> int, contents: map<string, int>, size: int, key: string)
    requires TableInvariant(buckets, hash, contents, size)
    ensures var c := buckets[BucketOf(hash, key, |buckets|)];
      (key in contents <==> FirstWith(c, key) < |c|)
      && (key in contents ==> contents[key] == c[FirstWith(c, key)].1)
  {
    var c := buckets[BucketOf(hash, key, |buckets|)];
    assert Lookup(c, key) == MapGet(contents, key);
    LookupSkipFirst(c, key);
  }

  /**
   * Replacing one bucket keeps the table well-formed when the new chain's links belong in
   * that bucket, its keys are distinct, its walk agrees with the new abstract map on the keys
   * of that bucket, the map is unchanged on every other key, and the counts add up.
   */
  lemma ReplaceBucket(buckets: seq<seq<Entry>>, hash: string -> int, contents: map<string, int>, size: int,
                      h: nat, c: seq<Entry>, contents': map<string, int>, size': int)
    requires TableInvariant(buckets, hash, contents, size) && h < |buckets|
    requires forall j :: 0 <= j < |c| ==> BucketOf(hash, c[j].0, |buckets|) == h
    requires NoDuplicateKeys(c)
    requires forall k :: BucketOf(hash, k, |buckets|) == h ==> Lookup(c, k) == MapGet(contents', k)
    requires forall k :: BucketOf(hash, k, |buckets|) != h ==> MapGet(contents', k) == MapGet(contents, k)
    requires size' == size - |buckets[h]| + |c| && size' == |contents'|
    ensures TableInvariant(buckets[h := c], hash, contents', size')
  {
    ReplaceWellPlaced(buckets, hash, h, c);
    ReplaceDistinct(buckets, h, c);
    ReplaceRepresents(buckets, hash, contents, h, c, contents');
    TotalLengthUpdate(buckets, h, c);
  }

  lemma ReplaceWellPlaced(buckets: seq<seq<Entry>>, hash: string -> int, h: nat, c: seq<Entry>)
    requires |buckets| > 0 && h < |buckets| && WellPlaced(buckets, hash)
    requires forall j :: 0 <= j < |c| ==> BucketOf(hash, c[j].0, |buckets|) == h
    ensures WellPlaced(buckets[h := c], hash)
  {
  }

  lemma ReplaceDistinct(buckets: seq<seq<Entry>>, h: nat, c: seq<Entry>)
    requires h < |buckets| && ChainsDistinct(buckets) && NoDuplicateKeys(c)
    ensures ChainsDistinct(buckets[h := c])
  {
  }

  lemma ReplaceRepresents(buckets: seq<seq<Entry>>, hash: string -> int, contents: map<string, int>,
                          h: nat, c: seq<Entry>, contents': map<string, int>)
    requires |buckets| > 0 && h < |buckets| && Represents(buckets, hash, contents)
    requires forall k :: BucketOf(hash, k, |buckets|) == h ==> Lookup(c, k) == MapGet(contents', k)
    requires forall k :: BucketOf(hash, k, |buckets|) != h ==> MapGet(contents', k) == MapGet(contents, k)
    ensures Represents(buckets[h := c], hash, contents')
  {
    var n := |buckets|;
    var b' := buckets[h := c];
    forall k ensures Lookup(b'[BucketOf(hash, k, n)], k) == MapGet(contents', k) {
      assert Lookup(buckets[BucketOf(hash, k, n)], k) == MapGet(contents, k);
    }
  }

  /** Overwriting the value of a present key keeps the table well-formed. */
  lemma TableAssign(buckets: seq<seq<Entry>>, hash: string -> int, contents: map<string, int>, size: int, key: string, value: int)
    requires TableInvariant(buckets, hash, contents, size) && key in contents
    ensures var h := BucketOf(hash, key, |buckets|);
      TableInvariant(buckets[h := Assign(buckets[h], key, value)], hash, contents[key := value], size)
  {
    var n := |buckets|;
    var h := BucketOf(hash, key, n);
    var c := buckets[h];
    var c' := Assign(c, key, value);
    var m' := contents[key := value];
    TableMember(buckets, hash, contents, size, key);
    assert forall j :: 0 <= j < |c| ==> c'[j].0 == c[j].0;
    forall k | BucketOf(hash, k, n) == h ensures Lookup(c', k) == MapGet(m', k) {
      assert Lookup(buckets[BucketOf(hash, k, n)], k) == MapGet(contents, k);
      AssignLookup(c, key, value, k);
    }
    ReplaceBucket(buckets, hash, contents, size, h, c', m', size);
  }

  /** Prepending a link for an absent key keeps the table well-formed, with one more link. */
  lemma TablePrepend(buckets: seq<seq<Entry>>, hash: string -> int, contents: map<string, int>, size: int, key: string, value: int)
    requires TableInvariant(buckets, hash, contents, size) && key !in contents
    ensures var h := BucketOf(hash, key, |buckets|);
      TableInvariant(buckets[h := [(key, value)] + buckets[h]], hash, contents[key := value], size + 1)
  {
    var n := |buckets|;
    var h := BucketOf(hash, key, n);
    var c := buckets[h];
    var c' := [(key, value)] + c;
    var m' := contents[key := value];
    assert Lookup(c, key) == None;
    LookupNone(c, key);
    assert forall j :: 1 <= j < |c'| ==> c'[j] == c[j - 1];
    forall k | BucketOf(hash, k, n) == h ensures Lookup(c', k) == MapGet(m', k) {
      assert Lookup(buckets[BucketOf(hash, k, n)], k) == MapGet(contents, k);
      assert c'[1..] == c;
    }
    ReplaceBucket(buckets, hash, contents, size, h, c', m', size + 1);
  }

  /** Unlinking a present key keeps the table well-formed, with one link fewer. */
  lemma TableRemove(buckets: seq<seq<Entry>>, hash: string -> int, contents: map<string, int>, size: int, key: string)
    requires TableInvariant(buckets, hash, contents, size) && key in contents
    ensures var h := BucketOf(hash, key, |buckets|);
      TableInvariant(buckets[h := RemoveKey(buckets[h], key)], hash, contents - {key}, size - 1)
  {
    var n := |buckets|;
    var h := BucketOf(hash, key, n);
    var c := buckets[h];
    TableMember(buckets, hash, contents, size, key);
    var c' := RemoveKey(c, key);
    var m' := contents - {key};
    assert forall k :: BucketOf(hash, k, n) == h ==> Lookup(c, k) == MapGet(contents, k) by {
      forall k | BucketOf(hash, k, n) == h ensures Lookup(c, k) == MapGet(contents, k) {
        assert Lookup(buckets[BucketOf(hash, k, n)], k) == MapGet(contents, k);
      }
    }
    RemoveKeyPlaced(c, key, hash, n, h);
    RemoveKeyRepresents(c, key, hash, n, h, contents);
    RemoveKeyShape(c, key);
    MapRemoveSize(contents, key);
    ReplaceBucket(buckets, hash, contents, size, h, c', m', size - 1);
  }

  /** Unlinking keeps every remaining link in the bucket its key hashes to. */
  lemma {:induction false} RemoveKeyPlaced(chain: seq<Entry>, key: string, hash: string -> int, n: int, h: int)
    requires n > 0
    requires forall j :: 0 <= j < |chain| ==> BucketOf(hash, chain[j].0, n) == h
    ensures forall j :: 0 <= j < |RemoveKey(chain, key)| ==> BucketOf(hash, RemoveKey(chain, key)[j].0, n) == h
  {
    if chain != [] && chain[0].0 != key {
      RemoveKeyPlaced(chain[1..], key, hash, n, h);
      var r := RemoveKey(chain[1..], key);
      assert forall j :: 1 <= j < |[chain[0]] + r| ==> ([chain[0]] + r)[j] == r[j - 1];
    }
  }

  /** Unlinking `key` from a bucket that mirrors the map on its keys mirrors the map without `key`. */
  lemma RemoveKeyRepresents(chain: seq<Entry>, key: string, hash: string -> int, n: int, h: int, contents: map<string, int>)
    requires n > 0 && NoDuplicateKeys(chain) && BucketOf(hash, key, n) == h
    requires forall k :: BucketOf(hash, k, n) == h ==> Lookup(chain, k) == MapGet(contents, k)
    ensures forall k :: BucketOf(hash, k, n) == h ==> Lookup(RemoveKey(chain, key), k) == MapGet(contents - {key}, k)
    ensures forall k :: BucketOf(hash, k, n) != h ==> MapGet(contents - {key}, k) == MapGet(contents, k)
  {
    forall k | BucketOf(hash, k, n) == h ensures Lookup(RemoveKey(chain, key), k) == MapGet(contents - {key}, k) {
      RemoveKeyLookup(chain, key, k);
    }
  }

  lemma MapRemoveSize(m: map<string, int>, key: string)
    requires key in m
    ensures |m - {key}| == |m| - 1
  {
    var m' := m - {key};
    assert m'.Keys + {key} == m.Keys;
  }

  /** Unlinking a present key shortens a chain without duplicates by exactly that link. */
  lemma RemoveKeyShape(chain: seq<Entry>, key: string)
    requires NoDuplicateKeys(chain) && FirstWith(chain, key) < |chain|
    ensures var p, r := FirstWith(chain, key), RemoveKey(chain, key);
      && |r| == |chain| - 1
      && (forall j :: 0 <= j < |r| ==> r[j] == chain[if j < p then j else j + 1])
      && NoDuplicateKeys(r)
  {
    RemoveKeyAt(chain, key);
  }

  /** Two maps that agree on every lookup are equal. */
  lemma MapGetExt(m: map<string, int>, m': map<string, int>)
    requires forall k :: MapGet(m, k) == MapGet(m', k)
    ensures m == m'
  {
    forall k ensures k in m <==> k in m' {
      assert MapGet(m, k) == MapGet(m', k);
    }
    forall k | k in m ensures m[k] == m'[k] {
      assert MapGet(m, k) == MapGet(m', k);
    }
  }

  // ---------------------------------------------------------------- rehashing

  /**
   * What a table rebuilt from `buckets` holds once buckets 0 .. i-1 have been copied, and
   * of bucket i the links in `prefix`: a key of an earlier bucket has its value, a key of
   * bucket i has the value `prefix` gives it, and a key of a later bucket is absent.
   */
  ghost function Rehashed(buckets: seq<seq<Entry>>, hash: string -> int, i: int, prefix: seq<Entry>, k: string): Option<int>
    requires |buckets| > 0
  {
    var b := BucketOf(hash, k, |buckets|);
    if b < i then Lookup(buckets[b], k) else if b == i then Lookup(prefix, k) else None
  }

  /**
   * Copying the next link of bucket i: its key is not in the copy yet (keys are distinct
   * across the table), and adding it extends the copied prefix of bucket i by that link.
   */
  lemma RehashStep(buckets: seq<seq<Entry>>, hash: string -> int, contents: map<string, int>, size: int,
                   i: nat, j: nat, m: map<string, int>)
    requires TableInvariant(buckets, hash, contents, size)
    requires i < |buckets| && j < |buckets[i]|
    requires forall k :: MapGet(m, k) == Rehashed(buckets, hash, i, buckets[i][..j], k)
    ensures buckets[i][j].0 !in m
    ensures forall k ::
      Rehashed(buckets, hash, i, buckets[i][..j + 1], k) == if k == buckets[i][j].0 then Some(buckets[i][j].1) else MapGet(m, k)
  {
    var c := buckets[i];
    var e := c[j];
    assert BucketOf(hash, e.0, |buckets|) == i;
    assert NoDuplicateKeys(c);
    LookupNone(c[..j], e.0);
    assert MapGet(m, e.0) == Lookup(c[..j], e.0);
    assert c[..j + 1] == c[..j] + [e];
    forall k ensures Rehashed(buckets, hash, i, c[..j + 1], k) == if k == e.0 then Some(e.1) else MapGet(m, k) {
      LookupAppend(c[..j], e, k);
      assert MapGet(m, k) == Rehashed(buckets, hash, i, c[..j], k);
    }
  }

  /** Once every bucket is copied, the copy holds exactly the table's map. */
  lemma RehashDone(buckets: seq<seq<Entry>>, hash: string -> int, contents: map<string, int>, size: int, m: map<string, int>)
    requires TableInvariant(buckets, hash, contents, size)
    requires forall k :: MapGet(m, k) == Rehashed(buckets, hash, |buckets|, [], k)
    ensures m == contents
  {
    forall k ensures MapGet(m, k) == MapGet(contents, k) {
      assert MapGet(m, k) == Rehashed(buckets, hash, |buckets|, [], k);
      assert Lookup(buckets[BucketOf(hash, k, |buckets|)], k) == MapGet(contents, k);
    }
    MapGetExt(m, contents);
  }
}
