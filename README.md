# Spell checker over a chained hash map, in Dafny

This project models a small C spell checker and the separate-chaining hash map it is built
on, and proves properties of both.

The hash map (`hashMap.c`):
- maps string keys to `int` values;
- keeps an array of buckets, each a singly linked chain of (key, value) links;
- computes the bucket of a key as the hash value's C remainder by the capacity, moved up by
  the capacity when negative;
- on a put, overwrites the value of an existing key, or else prepends a new link;
- doubles its capacity, re-putting every link into a fresh table, once the load (links per
  bucket) exceeds the maximum.

The spell checker (`spellChecker.c`):
- reads the dictionary's words (maximal runs of digits, letters and apostrophes, lowercased)
  and puts each with the value -1;
- validates and lowercases a query word;
- for a word the dictionary lacks, walks the whole table. For each entry it computes the
  Levenshtein distance to the query, stores it as the entry's value, and offers the entry to
  five suggestion slots.

Modules:
- `Optional`: the `Option` type, standing for a possibly NULL pointer.
- `CRemainder`: C's truncating `/` and `%`, and the corrected bucket index.
- `HashFunctions`: the two hash functions.
- `HashChains`: chains as sequences of pairs, and the table invariant over a bucket sequence.
- `HashMaps`: the `HashMap` class. Its fields `table: array<seq<Entry>>`, `size` and
  `capacity` are updated in place. The ghost field `Contents` is the abstract map.
- `Levenshtein`: the edit distance and the single-column dynamic programme.
- `Words`: `validateInput`, `nextWord` over a character sequence, and tokenising a whole text.
- `Suggestions`: the five-slot update rule, as written and corrected.
- `SpellChecker`: loading a dictionary, the suggestion scan, and checking one word.

## Model

| member | source | states |
|---|---|---|
| CRemainder.TruncRemBounds | hashMap.c:137 | C's `%` gives a remainder smaller than the divisor in magnitude, carrying the sign of the dividend |
| CRemainder.BucketIndex | hashMap.c:137-140 | for any hash value, positive or negative, the corrected index lies in [0, capacity) and equals the Euclidean remainder |
| HashChains.BucketOf | hashMap.c:213-216 | the bucket of a key lies in [0, capacity) |
| HashFunctions.HashFunction1Concat | hashMap.c:15-21 | hashFunction1 is additive over concatenation: the sum of the character codes |
| HashFunctions.HashFunction2Concat | hashMap.c:23-29 | hashFunction2 of s + t is the two hashes plus \|s\| times the first hash of t (positions weighted from 1) |
| HashFunctions.HashFunction1SwapAdjacent | hashMap.c:15-21 | swapping two adjacent characters keeps hashFunction1, so anagrams collide |
| HashFunctions.HashFunction2SwapAdjacent | hashMap.c:23-29 | swapping the adjacent characters at i and i + 1 changes hashFunction2 by exactly the code of the first minus the code of the second |
| HashFunctions.HashFunction2SwapChanges | hashMap.c:23-29 | an adjacent swap keeps hashFunction2 if and only if the two characters are equal |
| HashFunctions.HashFunction2SeparatesSwap | hashMap.c:23-29 | "ab" and "ba" collide under hashFunction1 but not under hashFunction2 |
| HashChains.LookupAt | hashMap.c:143-151 | in a chain without duplicate keys, the walk for a link's key finds that link's value |
| HashChains.LookupNone | hashMap.c:143-153 | the walk finds nothing exactly when no link has the key |
| HashChains.AssignLookup | hashMap.c:219-227 | overwriting the value of a present key changes what the walk finds for that key only |
| HashChains.RemoveKeyLookup | hashMap.c:265-284 | unlinking the first link with a key makes the walk miss that key and find every other key as before |
| HashChains.RemoveKeyShape | hashMap.c:267-281 | unlinking is the chain without the matching link, at the head or mid-chain alike |
| HashChains.TableMember | hashMap.c:137-153 | in a well-formed table a key is in the map exactly when its bucket holds a link with it, and that link carries its value |
| HashChains.TableEntry | hashMap.c:143-151 | every link of a well-formed table is an entry of the abstract map |
| HashChains.TableAssign | hashMap.c:219-227 | overwriting a present key's value in its bucket keeps the table well-formed for the updated map |
| HashChains.TablePrepend | hashMap.c:233-236 | prepending a link for an absent key keeps the table well-formed for the extended map, with one more link |
| HashChains.TableRemove | hashMap.c:265-279 | unlinking a present key keeps the table well-formed for the map without it, with one link less |
| HashChains.CountEmptyBounds | hashMap.c:349-358 | empty buckets are at most all buckets, non-empty ones at most the links, and all are empty exactly when there is no link |
| HashChains.RehashDone | hashMap.c:176-184 | re-putting every link of a well-formed table, bucket by bucket, rebuilds exactly its map |
| HashMaps.LoadExceedsIsRatio | hashMap.c:369-373 | the integer test is the comparison of the ratios links/buckets and MAX_TABLE_LOAD |
| HashMaps.DoublingRestoresLoad | hashMap.c:239-242 | after one insert into a table within the load bound, doubling the buckets brings the load back within the bound |
| HashMaps.HashMap.constructor | hashMap.c:62-69 | a new map has `capacity` buckets, all empty, no link and an empty abstract map |
| HashMaps.HashMap.Get | hashMap.c:129-154 | the value stored for the key, or None when absent; no state changes |
| HashMaps.HashMap.ContainsKey | hashMap.c:297-322 | 1 exactly when the key is in the map, otherwise 0 |
| HashMaps.HashMap.Put | hashMap.c:207-244 | the map gains key ↦ value. A present key has only its link's value overwritten: size, capacity and the bucket array are unchanged. A new key is prepended to its chain and size grows by 1. When the load then exceeds the maximum, the capacity doubles in a fresh table. The invariant, including the load bound, holds after |
| HashMaps.HashMap.Resize | hashMap.c:167-192 | needs a larger capacity; gives a fresh well-formed table of that capacity with the same map and size |
| HashMaps.HashMap.PutChain | hashMap.c:178-183 | re-putting one old bucket's chain into the new table extends the rebuilt map by that chain's links |
| HashMaps.HashMap.Remove | hashMap.c:253-285 | the key is gone and everything else is kept. A present key's link is unlinked from its chain and size drops by 1. An absent key leaves the table unchanged |
| HashMaps.HashMap.Size | hashMap.c:329-332 | the number of entries of the abstract map |
| HashMaps.HashMap.Capacity | hashMap.c:339-342 | the number of buckets, which is positive |
| HashMaps.HashMap.EmptyBuckets | hashMap.c:349-359 | the number of empty buckets; all of them exactly when the map is empty |
| HashMaps.HashMap.TableLoad | hashMap.c:369-373 | the load as the ratio (links, buckets), always within the maximum between operations |
| Levenshtein.Min3 | spellChecker.c:9 | the MIN3 macro returns one of its arguments, no larger than any of them |
| Levenshtein.DistanceSymmetric | spellChecker.c:106-122 | the edit distance does not depend on the order of the two strings |
| Levenshtein.DistanceBounds | spellChecker.c:106-122 | the distance lies between the length difference and the larger length |
| Levenshtein.DistanceZero | spellChecker.c:106-122 | the distance is 0 exactly when the strings are equal |
| Levenshtein.PrefixDistanceIsDistance | spellChecker.c:113-119 | the column recurrence indexed by prefix lengths computes the edit distance of the prefixes |
| Levenshtein.SweepColumn | spellChecker.c:114-119 | one outer iteration moves every column[y] from the distance of s1[..y] to s2[..x-1] to the distance of s1[..y] to s2[..x] |
| Levenshtein.ComputeLevenshtein | spellChecker.c:106-122 | the result is the edit distance of the two strings: \|s1\| when s2 is empty and \|s2\| when s1 is empty |
| Words.ToLower | spellChecker.c:36 | tolower gives no upper-case letter, keeps letters and word characters in both directions, and leaves other characters alone |
| Words.LowerAllFixed | spellChecker.c:86 | lowercasing a string without upper-case letters returns it unchanged |
| Words.ValidateInput | spellChecker.c:77-98 | the result is the lowercased input when the input is non-empty and all ASCII letters, otherwise None |
| Words.ValidateIdempotent | spellChecker.c:77-98 | validating a validated word returns it again |
| Words.ValidateIgnoresCase | spellChecker.c:77-98 | validating the lowercased input gives the same result as validating the input |
| Words.ValidateShape | spellChecker.c:84-87 | a validated word has the input's length, which is positive, and only the letters a to z |
| Words.NextWordFacts | spellChecker.c:23-48 | no word is found exactly when no word character remains, and then all the input is consumed; a word found is a non-empty lowercased run of word characters |
| Words.NextWord | spellChecker.c:18-51 | the result is the first maximal run of word characters from the position, lowercased, with the position after the character that ended it, or None at the end of the input. The doubling buffer always leaves room for the terminator |
| Words.Realloc | spellChecker.c:34 | a fresh buffer of the new size holding the old contents |
| Words.Tokens | spellChecker.c:64-69 | every word read from a text is a non-empty lowercase run of word characters |
| Words.TokensOfLines | spellChecker.c:64-69 | reading a text of tokens written one per line gives those tokens back, in order |
| SpellChecker.AddAllLookup | spellChecker.c:66 | putting words with value v maps each of them to v and leaves every other key unchanged |
| SpellChecker.AddAllKeys | spellChecker.c:64-69 | the keys after putting the words are the old keys plus the words |
| SpellChecker.LoadDictionary | spellChecker.c:58-70 | the map afterwards is the old map with -1 put for every word of the text, in reading order, and it stays well-formed |
| SpellChecker.LoadedDictionary | spellChecker.c:64-69 | loading a one-word-per-line dictionary into an empty map maps exactly its words to -1, with as many entries as there are distinct words |
| SpellChecker.ScoreChain | spellChecker.c:187-220 | one bucket's walk gives every link of that bucket its distance to the query, and offers the links to the slots in chain order |
| SpellChecker.ScoreLink | spellChecker.c:191-217 | for one link: its value becomes the distance, put in place (same table, size and capacity), and the link is offered to the slots by the corrected update (see Findings) |
| SpellChecker.SuggestionScan | spellChecker.c:182-222 | afterwards the map holds exactly the same keys, each with its distance to the query. Table, size and capacity are unchanged, and each chain keeps its order with the values replaced. The slots are the corrected slot update applied to every link, bucket by bucket and in chain order |
| SpellChecker.LookupScored | spellChecker.c:193-195 | scoring a chain keeps its keys, so the walk finds the distance wherever it found a value |
| SpellChecker.ScoredContents | spellChecker.c:193-195 | a well-formed table with all links scored holds the old keys exactly, each mapped to its distance |
| SpellChecker.ScoredBucket | spellChecker.c:189-195 | every link of a bucket, once scored, is a dictionary key with its distance to the query |
| SpellChecker.ScoredLinks | spellChecker.c:186-192 | the links the scan visits are as many as the table holds, each a dictionary key with its distance |
| SpellChecker.ScoredLinksDistinct | spellChecker.c:186-192 | the links the scan visits carry distinct keys, since each key sits only in the bucket it hashes to |
| SpellChecker.ScanOutcome | spellChecker.c:182-229 | after the scan all five slots are filled exactly when the dictionary has at least five words, and slots past the word count stay empty. Each filled slot holds a dictionary word with its distance to the query, and no word is in two slots |
| SpellChecker.CheckWord | spellChecker.c:178-233 | a word in the dictionary is reported correct and nothing changes; otherwise the map is scored and the scan's slots are the suggestions |
| Suggestions.FirstEmpty | spellChecker.c:199-206 | the first empty slot from a position: every slot before it is filled |
| Suggestions.Target | spellChecker.c:207-211 | the slot picked for replacement is the first of the filled slots with the smallest distance strictly above the candidate's (and below the sentinel 100000), or -1 when there is none |
| Suggestions.UpdateSlots | spellChecker.c:197-217 | the slot array after one candidate is the as-written rule: fill the first empty slot, and still overwrite the picked slot |
| Suggestions.OfferShape | spellChecker.c:199-206 | offering keeps the filled slots a prefix and fills one more slot while one is empty |
| Suggestions.ScanShape | spellChecker.c:182-206 | after n candidates, exactly min(n, 5) slots are filled, and they come first |
| Suggestions.ScanMembers | spellChecker.c:199-217 | every filled slot holds one of the offered candidates, with its distance |
| Suggestions.OfferOverwrites | spellChecker.c:207-217 | a filled slot changes only to the candidate, only when the candidate's distance is strictly smaller, and only for the slot Target picks |
| Suggestions.OfferNeverWorse | spellChecker.c:207-217 | no filled slot's distance increases, and a candidate with an equal distance evicts nothing |
| Suggestions.OfferKeepsCloser | spellChecker.c:207-217 | slots with a distance at most the candidate's are never touched |
| Suggestions.OfferDuplicates | spellChecker.c:199-217 | a concrete case where one candidate ends up in two slots |
| Suggestions.UpdateSlotsCorrected | spellChecker.c:197-217 | the corrected slot update: fill the first empty slot and stop, otherwise replace as before |
| Suggestions.OfferAllCorrectedAppend | spellChecker.c:184-220 | offering two runs of candidates one after the other is offering their concatenation |
| Suggestions.OfferCorrectedShape | spellChecker.c:199-206 | the corrected update keeps the filled slots a prefix and fills one more slot while one is empty |
| Suggestions.ScanCorrectedShape | spellChecker.c:182-206 | after n candidates, exactly min(n, 5) corrected slots are filled, and they come first |
| Suggestions.ScanCorrectedMembers | spellChecker.c:199-217 | under the corrected rule every filled slot holds one of the offered candidates |
| Suggestions.ScanCorrectedDistinct | spellChecker.c:199-217 | under the corrected rule, candidates with distinct keys never share slots |

## Left out

- HashFunctions.Code: a key character contributes its Unicode code, which is never negative. hashMap.c:18 and hashMap.c:26 add a plain `char`, which is signed on common targets, so there a byte above 127 lowers the sum. Signed `char` is not modelled. The keys the spell checker stores are ASCII: `nextWord` keeps only digits, letters and apostrophes (spellChecker.c:26-29), and `validateInput` keeps only letters (spellChecker.c:84).
- Hash values are mathematical integers. Signed `int` overflow in `hashFunction1`/`hashFunction2` is undefined behaviour in C and is not modelled. So in the model `hashFunction1` and `hashFunction2` never return a negative value. The index correction for negative hashes is still covered, because the map's hash function is a parameter that may return any `int`.
- `HASH_FUNCTION` and `MAX_TABLE_LOAD` come from `hashMap.h`, which is not part of this model. They are parameters of a map: a function from strings to `int`, and the ratio `loadNum / loadDen`.
- The float load of `hashMapTableLoad` is replaced by an exact comparison, `size * loadDen > capacity * loadNum`. Float rounding is not modelled.
- HashMaps.HashMap.constructor: requires `loadDen <= loadNum * capacity`, i.e. MAX_TABLE_LOAD times the capacity is at least 1. This simple condition is enough to rule out a second resize during the put into the temporary map inside `resizeTable`. Such a nested resize would make `resizeTable` record a capacity that does not match the table. The condition is not necessary, so it also excludes some maps that never resize inside `resizeTable`. One example is capacity 1 with MAX_TABLE_LOAD 0.75: its first resize moves one link into two buckets.
- Memory management is modelled as garbage-collected values:
  - `malloc`, `free` and `realloc` become fresh arrays;
  - `hashLinkNew` and `hashLinkDelete` become sequence updates;
  - `hashMapCleanUp` and `hashMapDelete` are not modelled;
  - the `strcpy` copy of a key becomes an immutable string.
- `hashMapPrint`, the prompt-and-read loop of `main`, the "quit" handling, `fopen`/`fclose` and the `clock()` timing are I/O and are not modelled. CheckWord starts from an already validated word.
- `nextWord` reads from a character sequence with an explicit end instead of a `FILE`. The `fgetc`-to-`char` conversion of `EOF` (spellChecker.c:25) is platform-dependent and is not modelled.
- Words.ValidateInput: requires fewer than 256 characters and no NUL. These match the 256-byte buffer of `main` and its NUL terminator. For 256 letters or more, the source writes `word[256]` past its buffer.
- Levenshtein.ComputeLevenshtein: requires that the strings are not both empty. With both empty, the source returns `column[0]`, which it never set. Every call in the source compares a validated, non-empty query.
- The five suggestion slots are modelled as `Option` values in an `array`. Two memory bugs are left out:
  - the undersized `malloc(sizeof(struct Hashlink*))` for a slot (spellChecker.c:202);
  - the NULL dereference when printing fewer than five filled slots (spellChecker.c:225-229). SpellChecker.ScanOutcome states when that happens.
- The suggestion slot rule follows the code. A ranking that evicts the worst suggestion is not what spellChecker.c:197-217 does. The code replaces the filled slot with the smallest distance strictly above the candidate's.
- SpellChecker.SuggestionScan: offers each link to the slots with the corrected update of the Finding below, not the as-written update. Only the duplicate-slot case differs.
- SpellChecker.SuggestionScan: walks a snapshot of each bucket's chain rather than the live links. This is sound here because every put in the scan overwrites the value of a link already present: no link is added, removed or moved.
- The `if (currentLink != NULL)` test before each bucket's walk (spellChecker.c:188) is subsumed by the walk's own loop test.

## Findings

| source | as written | input that shows it | evidently intended | confidence | as-written member | corrected member |
|---|---|---|---|---|---|---|
| spellChecker.c:199-217 | the slot loop fills the first empty slot and breaks, but the replacement at lines 214-217 still fires for a slot picked before the break | slots `[("a", 3), empty, empty, empty, empty]`, candidate `("b", 1)`: slot 1 is filled with "b", and slot 0 is also overwritten with "b" | a candidate that fills an empty slot is not also written over another slot, so no word is suggested twice | high (not executed) | Suggestions.OfferDuplicates | Suggestions.ScanCorrectedDistinct |

The as-written rule is `Suggestions.Offer`, with `Suggestions.UpdateSlots` as its loop; the replacement-rule lemmas are proved about it. The corrected rule is `Suggestions.OfferCorrected`, with `Suggestions.UpdateSlotsCorrected` as its loop. The suggestion scan of `SpellChecker` uses the corrected update. `SpellChecker.ScanOutcome` proves that its five suggestions are distinct dictionary words.
