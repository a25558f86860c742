/**
 * The character-level helpers of the spell checker: validateInput, which accepts a word of
 * ASCII letters and lower-cases it, and nextWord, which reads the next run of word
 * characters of a text, lower-cased, into a buffer that doubles when it is full. The file
 * the original reads with fgetc is a character sequence and a position in it here.
 */
module Words {
  import opened Optional

  /** An ASCII letter: the only characters validateInput accepts. */
  predicate IsLetter(c: char)
  {
    ('A' <= c <= 'Z') || ('a' <= c <= 'z')
  }

  predicate IsUpper(c: char)
  {
    'A' <= c <= 'Z'
  }

  /** A character nextWord keeps in a word: an ASCII digit or letter, or an apostrophe. */
  predicate IsWordChar(c: char)
  {
    ('0' <= c <= '9') || IsLetter(c) || c == '\''
  }

  /** tolower in the C locale: an upper-case ASCII letter moves to lower case, nothing else changes. */
  function ToLower(c: char): (r: char)
    ensures !IsUpper(r)
    ensures IsLetter(r) <==> IsLetter(c)
    ensures IsWordChar(r) <==> IsWordChar(c)
    ensures !IsUpper(c) ==> r == c
  {
    if IsUpper(c) then (c as int - 'A' as int + 'a' as int) as char else c
  }

  function LowerAll(s: string): (r: string)
    ensures |r| == |s|
    ensures forall i :: 0 <= i < |s| ==> r[i] == ToLower(s[i])
  {
    seq(|s|, i requires 0 <= i < |s| => ToLower(s[i]))
  }

  /** A string with no upper-case letter is its own lower-case copy. */
  lemma LowerAllFixed(s: string)
    requires forall i :: 0 <= i < |s| ==> !IsUpper(s[i])
    ensures LowerAll(s) == s
  {
  }

  // ---------------------------------------------------------------------------------------
  // validateInput
  // ---------------------------------------------------------------------------------------

  /** The size of validateInput's buffer, and of the input buffer main reads into. */
  const MaxLength := 256

  predicate AllLetters(s: string)
  {
    forall i :: 0 <= i < |s| ==> IsLetter(s[i])
  }

  /**
   * What validateInput returns: the lower-case copy of a non-empty input made of ASCII
   * letters only, and None (the NULL of the original) for anything else.
   */
  function Validate(input: string): (r: Option<string>)
  {
    if |input| > 0 && AllLetters(input) then Some(LowerAll(input)) else None
  }

  /** The character C reads at index i of the string: the terminating NUL past its end. */
  function CharAt(s: string, i: nat): char
  {
    if i < |s| then s[i] else '\0'
  }

  /**
   * validateInput: copy the input, lower-cased, into a buffer of 256 characters, one letter
   * at a time until the terminating NUL; give up at the first character that is not a
   * letter. The input is a C string read into main's 256-character buffer, so it holds no
   * NUL and at most 255 characters; that bound also keeps the terminator inside the buffer.
   */
  method ValidateInput(input: string) returns (r: Option<string>)
    requires |input| < MaxLength
    requires forall i :: 0 <= i < |input| ==> input[i] != '\0'
    ensures r == Validate(input)
  {
    var maxLength := MaxLength;
    var length := 0;
    var word := new char[maxLength];
    while length < maxLength
      invariant 0 <= length <= |input|
      invariant 0 < length ==> length < |input|
      invariant forall i :: 0 <= i < length ==> IsLetter(input[i]) && word[i] == ToLower(input[i])
      decreases maxLength - length
    {
      var c := CharAt(input, length);
      if IsLetter(c) {
        word[length] := ToLower(c);
        length := length + 1;
        if CharAt(input, length) == '\0' {
          break;
        }
      } else {
        assert length < |input| ==> !IsLetter(input[length]);
        return None;
      }
    }
    assert length == |input| && length > 0;
    word[length] := '\0';
    r := Some(word[..length]);
    assert word[..length] == LowerAll(input);
  }

  /** Validating a validated word gives the same word back. */
  lemma ValidateIdempotent(input: string)
    requires Validate(input).Some?
    ensures Validate(Validate(input).value) == Validate(input)
  {
    var w := LowerAll(input);
    assert AllLetters(w);
    LowerAllFixed(w);
  }

  /** Validation ignores case: an input and its lower-case copy validate alike. */
  lemma ValidateIgnoresCase(input: string)
    ensures Validate(LowerAll(input)) == Validate(input)
  {
    var w := LowerAll(input);
    if AllLetters(input) {
      LowerAllFixed(w);
    } else {
      var i :| 0 <= i < |input| && !IsLetter(input[i]);
      assert !IsLetter(w[i]);
    }
  }

  /** A validated word is a non-empty string of lower-case ASCII letters as long as the input. */
  lemma ValidateShape(input: string)
    requires Validate(input).Some?
    ensures |Validate(input).value| == |input| > 0
    ensures forall i :: 0 <= i < |input| ==> 'a' <= Validate(input).value[i] <= 'z'
  {
  }

  // ---------------------------------------------------------------------------------------
  // nextWord
  // ---------------------------------------------------------------------------------------

  /** The first position at or after pos holding a word character, or the end of the text. */
  function SkipSeparators(text: string, pos: nat): (r: nat)
    requires pos <= |text|
    ensures pos <= r <= |text|
    ensures forall i :: pos <= i < r ==> !IsWordChar(text[i])
    ensures r < |text| ==> IsWordChar(text[r])
    decreases |text| - pos
  {
    if pos == |text| || IsWordChar(text[pos]) then pos else SkipSeparators(text, pos + 1)
  }

  /** The end of the run of word characters that begins at `start`. */
  function RunEnd(text: string, start: nat): (r: nat)
    requires start <= |text|
    ensures start <= r <= |text|
    ensures forall i :: start <= i < r ==> IsWordChar(text[i])
    ensures r < |text| ==> !IsWordChar(text[r])
    decreases |text| - start
  {
    if start == |text| || !IsWordChar(text[start]) then start else RunEnd(text, start + 1)
  }

  /** A word as nextWord returns it: non-empty, word characters only, no upper case. */
  predicate IsToken(w: string)
  {
    |w| > 0 && forall i :: 0 <= i < |w| ==> IsWordChar(w[i]) && !IsUpper(w[i])
  }

  /**
   * What nextWord returns when the file is at position pos: the next maximal run of word
   * characters, lower-cased, and the position after the character that ended it (the
   * original has read that character too); None and the end of the text when only
   * separators remain.
   */
  function NextWordSpec(text: string, pos: nat): (r: (Option<string>, nat))
    requires pos <= |text|
    ensures r.0.Some? ==> pos < r.1 <= |text|
  {
    var start := SkipSeparators(text, pos);
    if start == |text| then (None, |text|)
    else
      var end := RunEnd(text, start);
      (Some(LowerAll(text[start..end])), if end < |text| then end + 1 else end)
  }

  /**
   * nextWord returns NULL exactly when no word character is left, and then leaves the file
   * at its end; otherwise it returns a token.
   */
  lemma NextWordFacts(text: string, pos: nat)
    requires pos <= |text|
    ensures NextWordSpec(text, pos).0.None? <==> forall i :: pos <= i < |text| ==> !IsWordChar(text[i])
    ensures NextWordSpec(text, pos).0.None? ==> NextWordSpec(text, pos).1 == |text|
    ensures NextWordSpec(text, pos).0.Some? ==> IsToken(NextWordSpec(text, pos).0.value)
  {
    var start := SkipSeparators(text, pos);
    if start < |text| {
      var end := RunEnd(text, start);
      var w := LowerAll(text[start..end]);
      assert IsWordChar(text[start]);
      forall i | 0 <= i < |w|
        ensures IsWordChar(w[i]) && !IsUpper(w[i])
      {
        assert text[start..end][i] == text[start + i];
      }
    }
  }

  /** realloc: a fresh buffer of `size` characters that begins with those of `buffer`. */
  method Realloc(buffer: array<char>, size: nat) returns (r: array<char>)
    requires buffer.Length <= size
    ensures fresh(r) && r.Length == size
    ensures forall i :: 0 <= i < buffer.Length ==> r[i] == buffer[i]
  {
    r := new char[size];
    var i := 0;
    while i < buffer.Length
      invariant 0 <= i <= buffer.Length
      invariant forall i' :: 0 <= i' < i ==> r[i'] == buffer[i']
    {
      r[i] := buffer[i];
      i := i + 1;
    }
  }

  /** The run found by SkipSeparators and RunEnd is the only one with these properties. */
  lemma RunEndUnique(text: string, start: nat, end: nat)
    requires start <= end <= |text|
    requires forall i :: start <= i < end ==> IsWordChar(text[i])
    requires end < |text| ==> !IsWordChar(text[end])
    ensures RunEnd(text, start) == end
  {
  }

  /**
   * nextWord: read characters until a word character is followed by a character that is
   * not one, or the text ends, appending the word characters lower-cased to a buffer of 16
   * characters that doubles whenever the next one would leave no room for the terminator.
   */
  method NextWord(text: string, pos: nat) returns (word: Option<string>, next: nat)
    requires pos <= |text|
    ensures (word, next) == NextWordSpec(text, pos)
  {
    var maxLength := 16;
    var length := 0;
    var buffer := new char[maxLength];
    var p := pos;
    ghost var start := SkipSeparators(text, pos);
    while true
      invariant pos <= p <= |text|
      invariant fresh(buffer) && buffer.Length == maxLength
      invariant 0 <= length < maxLength
      invariant length == 0 ==> p <= start
      invariant length > 0 ==> start + length == p && start < |text|
      invariant forall j :: start <= j < start + length ==> IsWordChar(text[j]) && buffer[j - start] == ToLower(text[j])
      decreases |text| - p
    {
      var c: Option<char> := if p < |text| then Some(text[p]) else None;
      if c.Some? {
        p := p + 1;
      }
      if c.Some? && IsWordChar(c.value) {
        if length == 0 {
          assert start == p - 1;
        }
        if length + 1 >= maxLength {
          maxLength := maxLength * 2;
          buffer := Realloc(buffer, maxLength);
        }
        buffer[length] := ToLower(c.value);
        length := length + 1;
      } else if length > 0 || c.None? {
        break;
      }
    }
    if length == 0 {
      assert start == |text| == p;
      return None, p;
    }
    buffer[length] := '\0';
    var end := start + length;
    RunEndUnique(text, start, end);
    assert buffer[..length] == LowerAll(text[start..end]);
    assert p == if end < |text| then end + 1 else end;
    word, next := Some(buffer[..length]), p;
  }

  /** The words nextWord returns, one call after another from pos, until it returns NULL. */
  function Tokens(text: string, pos: nat): (r: seq<string>)
    requires pos <= |text|
    ensures forall i :: 0 <= i < |r| ==> IsToken(r[i])
    decreases |text| - pos
  {
    NextWordFacts(text, pos);
    var next := NextWordSpec(text, pos);
    if next.0.None? then [] else [next.0.value] + Tokens(text, next.1)
  }

  // ---------------------------------------------------------------------------------------
  // Tokenising a dictionary written one word per line gives its words back
  // ---------------------------------------------------------------------------------------

  /** A dictionary file: every word followed by a newline. */
  function Lines(words: seq<string>): string
  {
    if words == [] then [] else words[0] + "\n" + Lines(words[1..])
  }

  /** A word followed by a newline is read back as that word, with the newline consumed. */
  lemma NextWordOfLine(text: string, pos: nat, w: string, rest: string)
    requires pos <= |text| && text[pos..] == w + "\n" + rest
    requires IsToken(w)
    ensures NextWordSpec(text, pos) == (Some(w), pos + |w| + 1)
  {
    var end := pos + |w|;
    assert text[pos] == text[pos..][0] == w[0];
    assert SkipSeparators(text, pos) == pos;
    assert text[end] == text[pos..][|w|] == '\n';
    forall j | pos <= j < end
      ensures IsWordChar(text[j])
    {
      assert text[j] == text[pos..][j - pos] == w[j - pos];
    }
    RunEndUnique(text, pos, end);
    assert text[pos..end] == w;
    LowerAllFixed(w);
  }

  /** Reading from a position where lines of tokens begin returns those tokens. */
  lemma {:induction false} TokensOfLinesAt(text: string, pos: nat, words: seq<string>)
    requires pos <= |text| && text[pos..] == Lines(words)
    requires forall i :: 0 <= i < |words| ==> IsToken(words[i])
    ensures Tokens(text, pos) == words
    decreases |words|
  {
    if words == [] {
      assert |text[pos..]| == 0;
      assert NextWordSpec(text, pos).0 == None;
    } else {
      var w, rest := words[0], Lines(words[1..]);
      NextWordOfLine(text, pos, w, rest);
      var line := w + "\n";
      var next := pos + |line|;
      assert text[pos..] == line + rest;
      assert text[next..] == text[pos..][|line|..];
      assert (line + rest)[|line|..] == rest;
      TokensOfLinesAt(text, next, words[1..]);
      assert NextWordSpec(text, pos).0 == Some(w);
      assert NextWordSpec(text, pos).1 == next;
      assert Tokens(text, pos) == [w] + Tokens(text, next);
      assert words == [w] + words[1..];
    }
  }

  /** Reading a dictionary written one word per line returns its words, in order. */
  lemma TokensOfLines(words: seq<string>)
    requires forall i :: 0 <= i < |words| ==> IsToken(words[i])
    ensures Tokens(Lines(words), 0) == words
  {
    var text := Lines(words);
    assert text[0..] == text;
    TokensOfLinesAt(text, 0, words);
  }
}
