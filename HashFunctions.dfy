/**
 * The two string hash functions of the hash map, as folds over the key's characters.
 * Each character contributes its code; C's signed `int` overflow is not modelled, so the
 * results are mathematical integers.
 */
module HashFunctions {

  /** The character code C adds for `c`. */
  function Code(c: char): int
  {
    c as int
  }

  /** hashFunction1: the sum of the character codes. */
  function HashFunction1(key: string): int
  {
    if key == [] then 0 else HashFunction1(key[..|key| - 1]) + Code(key[|key| - 1])
  }

  /** hashFunction2: the sum of each character code times its 1-based position. */
  function HashFunction2(key: string): int
  {
    if key == [] then 0 else HashFunction2(key[..|key| - 1]) + |key| * Code(key[|key| - 1])
  }

  /** The first hash of a concatenation is the sum of the parts' hashes. */
  lemma {:induction false} HashFunction1Concat(s: string, t: string)
    ensures HashFunction1(s + t) == HashFunction1(s) + HashFunction1(t)
    decreases |t|
  {
    if t != [] {
      var t' := t[..|t| - 1];
      assert (s + t)[..|s + t| - 1] == s + t';
      HashFunction1Concat(s, t');
    } else {
      assert s + t == s;
    }
  }

  /**
   * The second hash of a concatenation: the suffix's characters move |s| positions to the
   * right, which adds |s| times each of their codes.
   */
  lemma {:induction false} HashFunction2Concat(s: string, t: string)
    ensures HashFunction2(s + t) == HashFunction2(s) + HashFunction2(t) + |s| * HashFunction1(t)
    decreases |t|
  {
    if t != [] {
      var t' := t[..|t| - 1];
      var c := Code(t[|t| - 1]);
      assert (s + t)[..|s + t| - 1] == s + t';
      HashFunction2Concat(s, t');
      calc {
        HashFunction2(s + t);
        HashFunction2(s + t') + (|s| + |t|) * c;
        HashFunction2(s) + HashFunction2(t') + |s| * HashFunction1(t') + (|s| + |t|) * c;
        { assert (|s| + |t|) * c == |s| * c + |t| * c; }
        HashFunction2(s) + (HashFunction2(t') + |t| * c) + |s| * (HashFunction1(t') + c);
      }
    } else {
      assert s + t == s;
    }
  }

  /**
   * The first hash ignores order: swapping two adjacent characters keeps it, so anagrams
   * collide. The second hash weights positions and separates such pairs, e.g. "ab" and "ba".
   */
  lemma HashFunction1SwapAdjacent(s: string, i: nat)
    requires i + 1 < |s|
    ensures HashFunction1(s[..i] + [s[i + 1], s[i]] + s[i + 2..]) == HashFunction1(s)
  {
    var pre, post := s[..i], s[i + 2..];
    var ab, ba := [s[i], s[i + 1]], [s[i + 1], s[i]];
    var sum := HashFunction1(pre) + Code(s[i]) + Code(s[i + 1]) + HashFunction1(post);
    assert HashFunction1(s) == sum by {
      SplitAtPair(s, i);
      HashFunction1Concat(pre + ab, post);
      HashFunction1Concat(pre, ab);
      HashFunction1Pair(s[i], s[i + 1]);
    }
    assert HashFunction1((pre + ba) + post) == sum by {
      HashFunction1Concat(pre + ba, post);
      HashFunction1Concat(pre, ba);
      HashFunction1Pair(s[i + 1], s[i]);
    }
  }

  lemma HashFunction1Pair(x: char, y: char)
    ensures HashFunction1([x, y]) == Code(x) + Code(y)
  {
    assert [x, y][..1] == [x];
    assert [x][..0] == [];
    assert HashFunction1([x]) == HashFunction1([]) + Code(x);
  }

  lemma HashFunction2Pair(x: char, y: char)
    ensures HashFunction2([x, y]) == Code(x) + 2 * Code(y)
  {
    assert [x, y][..1] == [x];
    assert [x][..0] == [];
    assert HashFunction2([x]) == HashFunction2([]) + Code(x);
  }

  /**
   * Swapping the adjacent characters at positions i and i + 1 moves each one place, which
   * changes the second hash by exactly the difference of their codes.
   */
  lemma HashFunction2SwapAdjacent(s: string, i: nat)
    requires i + 1 < |s|
    ensures HashFunction2(s[..i] + [s[i + 1], s[i]] + s[i + 2..]) ==
      HashFunction2(s) + Code(s[i]) - Code(s[i + 1])
  {
    var pre, post := s[..i], s[i + 2..];
    var a, b := s[i], s[i + 1];
    var ab, ba := [a, b], [b, a];
    var h1 := HashFunction1(post);
    assert HashFunction1(ab) == HashFunction1(ba) by {
      HashFunction1Pair(a, b);
      HashFunction1Pair(b, a);
    }
    var hab := HashFunction2(ab);
    var hba := HashFunction2(ba);
    assert hba == hab + Code(a) - Code(b) by {
      HashFunction2Pair(a, b);
      HashFunction2Pair(b, a);
    }
    var shift := (i + 2) * h1;
    var inner := i * HashFunction1(ab);
    SplitAtPair(s, i);
    assert HashFunction2(s) == HashFunction2(pre) + hab + inner + HashFunction2(post) + shift by {
      HashFunction2Concat(pre + ab, post);
      HashFunction2Concat(pre, ab);
    }
    assert HashFunction2((pre + ba) + post) ==
      HashFunction2(pre) + hba + inner + HashFunction2(post) + shift by {
      HashFunction2Concat(pre + ba, post);
      HashFunction2Concat(pre, ba);
    }
  }

  lemma SplitAtPair(s: string, i: nat)
    requires i + 1 < |s|
    ensures s == s[..i] + [s[i], s[i + 1]] + s[i + 2..]
  {
    assert forall k | 0 <= k < |s| :: s[k] == (s[..i] + [s[i], s[i + 1]] + s[i + 2..])[k];
  }

  /** So an adjacent swap leaves the second hash unchanged exactly when the two characters agree. */
  lemma HashFunction2SwapChanges(s: string, i: nat)
    requires i + 1 < |s|
    ensures HashFunction2(s[..i] + [s[i + 1], s[i]] + s[i + 2..]) == HashFunction2(s) <==>
      s[i] == s[i + 1]
  {
    HashFunction2SwapAdjacent(s, i);
    var d := Code(s[i]) - Code(s[i + 1]);
    assert d == 0 <==> s[i] == s[i + 1];
  }

  lemma HashFunction2SeparatesSwap()
    ensures HashFunction1("ab") == HashFunction1("ba")
    ensures HashFunction2("ab") != HashFunction2("ba")
  {
    assert "ab"[..1] == "a" && "ba"[..1] == "b";
    assert "a"[..0] == "" && "b"[..0] == "";
  }
}
