/**
 * The spell checker's use of the hash map: loading a dictionary text into it, and the
 * suggestion scan that, for a word the dictionary lacks, stores each dictionary word's edit
 * distance to it as that word's value and keeps the closest words in five slots.
 */
module SpellChecker {
  import opened Optional
  import opened HashChains
  import opened HashMaps
  import opened Levenshtein
  import opened Words
  import opened Suggestions

  // ---------------------------------------------------------------- loading the dictionary

  /** The map after `v` has been put for every word of `words`, in order. */
  function AddAll(m: map<string, int>, words: seq<string>, v: int): map<string, int>
    decreases |words|
  {
    if words == [] then m else AddAll(m[words[0] := v], words[1..], v)
  }

  /** Putting the words maps each of them to `v` and leaves every other key as it was. */
  lemma {:induction false} AddAllLookup(m: map<string, int>, words: seq<string>, v: int, k: string)
    ensures MapGet(AddAll(m, words, v), k) == if k in words then Some(v) else MapGet(m, k)
    decreases |words|
  {
    if words != [] {
      AddAllLookup(m[words[0] := v], words[1..], v, k);
      assert k in words <==> k == words[0] || k in words[1..] by {
        assert words == [words[0]] + words[1..];
      }
    }
  }

  /** The keys after the words are put: the old keys and the words. */
  lemma AddAllKeys(m: map<string, int>, words: seq<string>, v: int)
    ensures AddAll(m, words, v).Keys == m.Keys + set w | w in words
  {
    forall k | true
      ensures k in AddAll(m, words, v).Keys <==> k in m.Keys + set w | w in words
    {
      AddAllLookup(m, words, v, k);
    }
  }

  /**
   * loadDictionary: read the words of the dictionary text one after the other and put each
   * with the value -1. A word already in the map only gets its value overwritten.
   */
  method LoadDictionary(text: string, m: HashMap)
    requires m.Valid()
    modifies m, m.table
    ensures m.Valid()
    ensures m.Contents == AddAll(old(m.Contents), Tokens(text, 0), -1)
  {
    ghost var q := 0;
    var word, p := NextWord(text, 0);
    while word.Some?
      invariant q <= |text| && (word, p) == NextWordSpec(text, q)
      invariant m.Valid() && (m.table == old(m.table) || fresh(m.table))
      invariant AddAll(m.Contents, Tokens(text, q), -1) == AddAll(old(m.Contents), Tokens(text, 0), -1)
      decreases |text| - q
    {
      assert Tokens(text, q) == [word.value] + Tokens(text, p);
      m.Put(word.value, -1);
      q := p;
      word, p := NextWord(text, p);
    }
    assert Tokens(text, q) == [];
  }

  /**
   * Loading a dictionary whose words stand one per line into an empty map maps exactly those
   * words to -1, and holds as many entries as there are distinct words.
   */
  lemma LoadedDictionary(words: seq<string>, k: string)
    requires forall w :: w in words ==> IsToken(w)
    ensures MapGet(AddAll(map[], Tokens(Lines(words), 0), -1), k) == if k in words then Some(-1) else None
    ensures |AddAll(map[], Tokens(Lines(words), 0), -1)| == |set w | w in words|
  {
    TokensOfLines(words);
    AddAllLookup(map[], words, -1, k);
    AddAllKeys(map[], words, -1);
    var empty: map<string, int> := map[];
    assert empty.Keys + (set w | w in words) == set w | w in words;
  }

  // ---------------------------------------------------------------- the suggestion scan

  /** The edit distance the scan stores for a link: from the misspelt word to the link's key. */
  function Scored(query: string, e: Entry): (r: Entry)
  {
    (e.0, Distance(query, e.0))
  }

  /** The chain with its first `n` links scored, the rest untouched. */
  function ScorePrefix(query: string, chain: seq<Entry>, n: nat): (r: seq<Entry>)
    requires n <= |chain|
    ensures |r| == |chain|
    ensures forall j :: 0 <= j < |chain| ==> r[j].0 == chain[j].0
  {
    seq(|chain|, j requires 0 <= j < |chain| => if j < n then Scored(query, chain[j]) else chain[j])
  }

  /** The table with every link scored. */
  function ScoreTable(query: string, buckets: seq<seq<Entry>>): (r: seq<seq<Entry>>)
    ensures |r| == |buckets|
  {
    seq(|buckets|, b requires 0 <= b < |buckets| => ScorePrefix(query, buckets[b], |buckets[b]|))
  }

  /** The table part way through the scan: buckets before `i` scored, `n` links of bucket `i`. */
  ghost function Partial(query: string, buckets: seq<seq<Entry>>, i: nat, n: nat): seq<seq<Entry>>
    requires i <= |buckets| && (i < |buckets| ==> n <= |buckets[i]|)
  {
    seq(|buckets|, b requires 0 <= b < |buckets| =>
      if b < i then ScorePrefix(query, buckets[b], |buckets[b]|)
      else if b == i then ScorePrefix(query, buckets[b], n)
      else buckets[b])
  }

  /** Putting the distance of link `n` of bucket `i` scores one more link of the table. */
  lemma PartialStep(query: string, buckets: seq<seq<Entry>>, i: nat, n: nat)
    requires i < |buckets| && n < |buckets[i]| && NoDuplicateKeys(buckets[i])
    ensures var t := Partial(query, buckets, i, n);
            t[i := Assign(t[i], buckets[i][n].0, Distance(query, buckets[i][n].0))] == Partial(query, buckets, i, n + 1)
  {
    var chain := buckets[i];
    var key := chain[n].0;
    var c := Assign(ScorePrefix(query, chain, n), key, Distance(query, key));
    forall j | 0 <= j < |chain|
      ensures c[j] == ScorePrefix(query, chain, n + 1)[j]
    {
      if j != n {
        assert chain[j].0 != key;
      }
    }
    assert c == ScorePrefix(query, chain, n + 1);
  }

  /** The scan starts on the table as it is. */
  lemma PartialStart(query: string, buckets: seq<seq<Entry>>)
    requires |buckets| > 0
    ensures Partial(query, buckets, 0, 0) == buckets
  {
    assert forall b :: 0 <= b < |buckets| ==> ScorePrefix(query, buckets[b], 0) == buckets[b];
  }

  /** A finished bucket is where the next bucket starts; after the last one the table is scored. */
  lemma PartialNext(query: string, buckets: seq<seq<Entry>>, i: nat)
    requires i < |buckets|
    ensures Partial(query, buckets, i, |buckets[i]|) ==
            if i + 1 < |buckets| then Partial(query, buckets, i + 1, 0) else ScoreTable(query, buckets)
  {
    if i + 1 < |buckets| {
      assert ScorePrefix(query, buckets[i + 1], 0) == buckets[i + 1];
    }
  }

  /** Scoring a chain keeps its keys, so a walk finds the distance wherever it found a value. */
  lemma LookupScored(query: string, chain: seq<Entry>, k: string)
    requires NoDuplicateKeys(chain)
    ensures Lookup(ScorePrefix(query, chain, |chain|), k) ==
            if Lookup(chain, k).Some? then Some(Distance(query, k)) else None
  {
    var scored := ScorePrefix(query, chain, |chain|);
    LookupNone(chain, k);
    LookupNone(scored, k);
    if j :| 0 <= j < |chain| && chain[j].0 == k {
      LookupAt(chain, j);
      LookupAt(scored, j);
    }
  }

  /**
   * A well-formed table whose links have all been scored holds exactly the keys it held
   * before, each with its distance to the query.
   */
  lemma ScoredContents(query: string, buckets: seq<seq<Entry>>, hash: string -> int, contents: map<string, int>,
                       contents': map<string, int>, size: int, size': int, k: string)
    requires TableInvariant(buckets, hash, contents, size)
    requires TableInvariant(ScoreTable(query, buckets), hash, contents', size')
    ensures MapGet(contents', k) == if k in contents then Some(Distance(query, k)) else None
  {
    var b := BucketOf(hash, k, |buckets|);
    assert Lookup(buckets[b], k) == MapGet(contents, k);
    assert Lookup(ScoreTable(query, buckets)[b], k) == MapGet(contents', k);
    LookupScored(query, buckets[b], k);
  }

  /** Every scored link of a bucket of a well-formed table is an entry of the map with its distance. */
  lemma ScoredBucket(query: string, buckets: seq<seq<Entry>>, hash: string -> int,
                     contents: map<string, int>, size: int, i: nat)
    requires TableInvariant(buckets, hash, contents, size) && i < |buckets|
    ensures forall e: Entry :: e in ScoreTable(query, buckets)[i] ==> e.0 in contents && e.1 == Distance(query, e.0)
  {
    var chain := ScoreTable(query, buckets)[i];
    forall e: Entry | e in chain
      ensures e.0 in contents && e.1 == Distance(query, e.0)
    {
      var j :| 0 <= j < |chain| && chain[j] == e;
      assert e == Scored(query, buckets[i][j]);
      TableEntry(buckets, hash, contents, size, i, j);
    }
  }

  /**
   * The scored links of the first n buckets of a well-formed table: as many as the table has
   * links there, each an entry of the map paired with its distance to the query.
   */
  lemma {:induction false} ScoredLinks(query: string, buckets: seq<seq<Entry>>, hash: string -> int,
                                       contents: map<string, int>, size: int, n: nat)
    requires TableInvariant(buckets, hash, contents, size) && n <= |buckets|
    ensures |Links(ScoreTable(query, buckets)[..n])| == TotalLength(buckets[..n])
    ensures forall e: Entry :: e in Links(ScoreTable(query, buckets)[..n]) ==> e.0 in contents && e.1 == Distance(query, e.0)
    decreases n
  {
    var scored := ScoreTable(query, buckets);
    if n > 0 {
      ScoredLinks(query, buckets, hash, contents, size, n - 1);
      TotalLengthStep(scored, n - 1);
      TotalLengthStep(buckets, n - 1);
      ScoredBucket(query, buckets, hash, contents, size, n - 1);
    } else {
      assert scored[..n] == [] && buckets[..n] == [];
    }
  }

  /**
   * The scored links of the first n buckets of a well-formed table come from those buckets,
   * so no key occurs twice among them.
   */
  lemma {:induction false} ScoredLinksDistinct(query: string, buckets: seq<seq<Entry>>, hash: string -> int,
                                               contents: map<string, int>, size: int, n: nat)
    requires TableInvariant(buckets, hash, contents, size) && n <= |buckets|
    ensures forall e: Entry :: e in Links(ScoreTable(query, buckets)[..n]) ==> BucketOf(hash, e.0, |buckets|) < n
    ensures var links := Links(ScoreTable(query, buckets)[..n]);
            forall a, b :: 0 <= a < b < |links| ==> links[a].0 != links[b].0
    decreases n
  {
    var scored := ScoreTable(query, buckets);
    if n > 0 {
      ScoredLinksDistinct(query, buckets, hash, contents, size, n - 1);
      TotalLengthStep(scored, n - 1);
      var before, chain := Links(scored[..n - 1]), scored[n - 1];
      assert forall j :: 0 <= j < |chain| ==> BucketOf(hash, chain[j].0, |buckets|) == n - 1 by {
        assert forall j :: 0 <= j < |chain| ==> chain[j].0 == buckets[n - 1][j].0;
      }
      assert NoDuplicateKeys(chain) by {
        assert NoDuplicateKeys(buckets[n - 1]);
      }
      var links := before + chain;
      forall a, b | 0 <= a < b < |links|
        ensures links[a].0 != links[b].0
      {
        if b >= |before| && a < |before| {
          assert links[a] in before;
          assert links[b] == chain[b - |before|];
        } else if a >= |before| {
          assert links[a] == chain[a - |before|] && links[b] == chain[b - |before|];
        }
      }
      forall e: Entry | e in links
        ensures BucketOf(hash, e.0, |buckets|) < n
      {
        if e !in before {
          var j :| 0 <= j < |chain| && chain[j] == e;
        }
      }
    } else {
      assert scored[..n] == [];
    }
  }

  /**
   * What the suggestion scan leaves in its five slots: all of them filled exactly when the
   * dictionary holds at least five words (otherwise the slots past the number of words stay
   * empty), every filled slot a dictionary word with its distance to the query, and no word
   * in two slots.
   */
  lemma ScanOutcome(query: string, buckets: seq<seq<Entry>>, hash: string -> int, contents: map<string, int>, size: int)
    requires TableInvariant(buckets, hash, contents, size)
    ensures var slots := ScanCorrected(Links(ScoreTable(query, buckets)));
            && |slots| == NumSuggestions
            && ((forall i :: 0 <= i < NumSuggestions ==> slots[i].Some?) <==> |contents| >= NumSuggestions)
            && (forall i :: 0 <= i < NumSuggestions && i >= |contents| ==> slots[i].None?)
            && (forall i :: 0 <= i < NumSuggestions && slots[i].Some? ==>
                  slots[i].value.0 in contents && slots[i].value.1 == Distance(query, slots[i].value.0))
            && DistinctKeys(slots)
  {
    var scored := ScoreTable(query, buckets);
    var links := Links(scored);
    ScoredLinks(query, buckets, hash, contents, size, |buckets|);
    ScoredLinksDistinct(query, buckets, hash, contents, size, |buckets|);
    assert scored[..|buckets|] == scored && buckets[..|buckets|] == buckets;
    ScanCorrectedShape(links);
    ScanCorrectedMembers(links);
    ScanCorrectedDistinct(links);
    var slots := ScanCorrected(links);
    var e := FirstEmpty(slots, 0);
    assert |links| == |contents|;
    forall i | 0 <= i < NumSuggestions && i >= |contents|
      ensures slots[i].None?
    {
      EmptyFromHere(slots, e, i);
    }
  }

  /** The first j + 1 elements are the first j followed by element j. */
  lemma TakeOneMore<T>(s: seq<T>, j: nat)
    requires j < |s|
    ensures s[..j + 1] == s[..j] + [s[j]]
  {
  }

  /**
   * The body of the while loop over a bucket, for the link with key `key`: compute the
   * distance from the query to the key, put it as the key's value (which overwrites the
   * link's value in place), and offer the link to the suggestion slots.
   */
  method ScoreLink(m: HashMap, query: string, key: string, slots: array<Option<Candidate>>)
    requires m.Valid() && |query| > 0 && key in m.Contents
    modifies m, m.table, slots
    ensures m.Valid() && m.table == old(m.table) && m.capacity == old(m.capacity) && m.size == old(m.size)
    ensures m.table[..] == old(m.table[..])[old(m.IndexOf(key)) := Assign(old(m.table[m.IndexOf(key)]), key, Distance(query, key))]
    ensures slots[..] == OfferCorrected(old(slots[..]), (key, Distance(query, key)))
  {
    var distance := ComputeLevenshtein(query, key);
    m.Put(key, distance);
    UpdateSlotsCorrected(slots, (key, distance));
  }

  /**
   * One pass of the while loop over a bucket of the suggestion scan: for each link, compute
   * the distance from the query to its key, put it as the key's value, and offer the link to
   * the suggestion slots.
   */
  method ScoreChain(m: HashMap, query: string, i: int, slots: array<Option<Candidate>>, ghost buckets: seq<seq<Entry>>)
    requires m.Valid() && |query| > 0
    requires |buckets| == m.table.Length && 0 <= i < |buckets| && ChainsDistinct(buckets)
    requires m.table[..] == Partial(query, buckets, i, 0)
    modifies m, m.table, slots
    ensures m.Valid() && m.table == old(m.table) && m.capacity == old(m.capacity) && m.size == old(m.size)
    ensures m.table[..] == Partial(query, buckets, i, |buckets[i]|)
    ensures slots[..] == OfferAllCorrected(old(slots[..]), ScoreTable(query, buckets)[i])
  {
    var chain := m.table[i];
    assert chain == buckets[i];
    ghost var scored := ScoreTable(query, buckets)[i];
    var j := 0;
    while j < |chain|
      invariant 0 <= j <= |chain|
      invariant m.Valid() && m.table == old(m.table) && m.capacity == old(m.capacity) && m.size == old(m.size)
      invariant m.table[..] == Partial(query, buckets, i, j)
      invariant slots[..] == OfferAllCorrected(old(slots[..]), scored[..j])
    {
      var key := chain[j].0;
      TableEntry(m.table[..], m.hash, m.Contents, m.size, i, j);
      assert m.IndexOf(key) == i;
      PartialStep(query, buckets, i, j);
      assert scored[j] == Scored(query, chain[j]) == (key, Distance(query, key));
      TakeOneMore(scored, j);
      ScoreLink(m, query, key, slots);
      j := j + 1;
    }
    assert scored[..j] == scored;
  }

  /**
   * The suggestion scan of the main loop, for a word the dictionary lacks: walk every bucket
   * and every link, replace each value by the key's distance to the word, and offer each link
   * to five slots that start empty. The result is the slots as the scan leaves them.
   */
  method SuggestionScan(m: HashMap, query: string) returns (slots: Slots)
    requires m.Valid() && |query| > 0
    modifies m, m.table
    ensures m.Valid() && m.table == old(m.table) && m.capacity == old(m.capacity) && m.size == old(m.size)
    ensures m.table[..] == ScoreTable(query, old(m.table[..]))
    ensures forall k :: MapGet(m.Contents, k) == if k in old(m.Contents) then Some(Distance(query, k)) else None
    ensures slots == ScanCorrected(Links(ScoreTable(query, old(m.table[..]))))
  {
    var suggestions := new Option<Candidate>[NumSuggestions](_ => None);
    assert suggestions[..] == EmptySlots();
    ghost var buckets := m.table[..];
    ghost var scored := ScoreTable(query, buckets);
    PartialStart(query, buckets);
    var capacity := m.Capacity();
    var i := 0;
    while i < capacity
      invariant 0 <= i <= capacity == m.table.Length == |buckets|
      invariant m.Valid() && m.table == old(m.table) && m.capacity == old(m.capacity) && m.size == old(m.size)
      invariant m.table[..] == if i < capacity then Partial(query, buckets, i, 0) else scored
      invariant fresh(suggestions) && suggestions.Length == NumSuggestions
      invariant suggestions[..] == ScanCorrected(Links(scored[..i]))
    {
      ScoreChain(m, query, i, suggestions, buckets);
      PartialNext(query, buckets, i);
      TotalLengthStep(scored, i);
      OfferAllCorrectedAppend(EmptySlots(), Links(scored[..i]), scored[i]);
      i := i + 1;
    }
    assert scored[..i] == scored;
    forall k
      ensures MapGet(m.Contents, k) == if k in old(m.Contents) then Some(Distance(query, k)) else None
    {
      ScoredContents(query, buckets, m.hash, old(m.Contents), m.Contents, old(m.size), m.size, k);
    }
    slots := suggestions[..];
  }

  /**
   * Checking one validated word (the body of the main loop): a word the dictionary holds is
   * spelled correctly and nothing changes; otherwise the suggestion scan runs and its slots
   * are the suggestions.
   */
  method CheckWord(m: HashMap, word: string) returns (suggestions: Option<Slots>)
    requires m.Valid() && |word| > 0
    modifies m, m.table
    ensures m.Valid() && m.table == old(m.table)
    ensures suggestions.None? <==> word in old(m.Contents)
    ensures suggestions.None? ==> m.Contents == old(m.Contents) && m.table[..] == old(m.table[..])
    ensures suggestions.Some? ==>
      && m.table[..] == ScoreTable(word, old(m.table[..]))
      && (forall k :: MapGet(m.Contents, k) == if k in old(m.Contents) then Some(Distance(word, k)) else None)
      && suggestions.value == ScanCorrected(Links(ScoreTable(word, old(m.table[..]))))
  {
    var found := m.Get(word);
    if found.None? {
      var slots := SuggestionScan(m, word);
      suggestions := Some(slots);
    } else {
      suggestions := None;
    }
  }
}
