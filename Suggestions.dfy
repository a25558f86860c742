/**
 * The five suggestion slots of the spell checker's scan. They start empty, and every
 * dictionary entry, with the edit distance just computed for it, is offered to them in
 * turn. The slot update follows the loop in main: fill the first empty slot, and also
 * overwrite the slot the loop picked before reaching it.
 */
module Suggestions {
  import opened Optional

  /** A dictionary key and the distance computed for it. */
  type Candidate = (string, int)

  type Slots = seq<Option<Candidate>>

  const NumSuggestions := 5

  /** The distance the slot loop starts from, before it has picked a slot to overwrite. */
  const Sentinel := 100000

  /** The slots as main allocates them: all empty. */
  function EmptySlots(): (r: Slots)
    ensures |r| == NumSuggestions && forall i :: 0 <= i < |r| ==> r[i].None?
  {
    seq(NumSuggestions, _ => None)
  }

  /** The first empty slot at or after s, or |slots| when they are all filled. */
  function FirstEmpty(slots: Slots, s: nat): (r: nat)
    requires s <= |slots|
    ensures s <= r <= |slots|
    ensures forall i :: s <= i < r ==> slots[i].Some?
    ensures r < |slots| ==> slots[r].None?
    decreases |slots| - s
  {
    if s == |slots| || slots[s].None? then s else FirstEmpty(slots, s + 1)
  }

  /** The first empty slot is the only one with every slot before it filled. */
  lemma FirstEmptyUnique(slots: Slots, s: nat, k: nat)
    requires s <= k <= |slots|
    requires forall i :: s <= i < k ==> slots[i].Some?
    requires k < |slots| ==> slots[k].None?
    ensures FirstEmpty(slots, s) == k
  {
  }

  /**
   * The slot the loop over the first n slots, all filled, picks for overwriting, paired
   * with its distance: a slot is picked when its distance is above d and below the
   * distance picked so far. That is the first slot holding the smallest distance above d
   * (and below the sentinel). (-1, Sentinel) when no slot qualifies.
   */
  function Target(slots: Slots, d: int, n: nat): (r: (int, int))
    requires n <= |slots|
    requires forall i :: 0 <= i < n ==> slots[i].Some?
    ensures r.0 == -1 ==> r.1 == Sentinel
    ensures r.0 != -1 ==> 0 <= r.0 < n && r.1 == slots[r.0].value.1 && d < r.1 < Sentinel
    ensures forall i :: 0 <= i < n && d < slots[i].value.1 < Sentinel ==> r.0 != -1 && r.1 <= slots[i].value.1
    ensures forall i :: 0 <= i < r.0 && d < slots[i].value.1 ==> r.1 < slots[i].value.1
  {
    if n == 0 then (-1, Sentinel)
    else
      var prev := Target(slots, d, n - 1);
      var v := slots[n - 1].value.1;
      if d < v && v < prev.1 then (n - 1, v) else prev
  }

  /**
   * Offering candidate c, as main's slot loop does it: the first empty slot, if any, takes
   * c; then the slot picked among the filled slots before it, if any, takes c as well.
   */
  function Offer(slots: Slots, c: Candidate): Slots
  {
    var e := FirstEmpty(slots, 0);
    var t := Target(slots, c.1, e).0;
    var filled := if e < |slots| then slots[e := Some(c)] else slots;
    if t >= 0 then filled[t := Some(c)] else filled
  }

  /** The slots after the entries have been offered in order, from empty slots. */
  function Scan(entries: seq<Candidate>): Slots
  {
    if entries == [] then EmptySlots()
    else Offer(Scan(entries[..|entries| - 1]), entries[|entries| - 1])
  }

  /**
   * The slot loop of main for one candidate, on the slot array: stop at the first empty
   * slot and fill it, remembering on the way the filled slot to overwrite, then overwrite it.
   */
  method UpdateSlots(slots: array<Option<Candidate>>, c: Candidate)
    modifies slots
    ensures slots[..] == Offer(old(slots[..]), c)
  {
    ghost var before := slots[..];
    ghost var e := FirstEmpty(before, 0);
    var smallestDistance := Sentinel;
    var smallestDistanceIndex := -1;
    var s := 0;
    while s < slots.Length
      invariant 0 <= s <= e
      invariant slots[..] == before
      invariant smallestDistanceIndex == Target(before, c.1, s).0
      invariant smallestDistance == Target(before, c.1, s).1
    {
      if slots[s].None? {
        slots[s] := Some(c);
        break;
      } else if c.1 < slots[s].value.1 && slots[s].value.1 < smallestDistance {
        smallestDistance := slots[s].value.1;
        smallestDistanceIndex := s;
      }
      s := s + 1;
    }
    assert s == e && slots[..] == if e < slots.Length then before[e := Some(c)] else before;
    if smallestDistanceIndex > -1 {
      slots[smallestDistanceIndex] := Some(c);
    }
  }

  // ---------------------------------------------------------------------------------------
  // What the slots look like
  // ---------------------------------------------------------------------------------------

  /** The filled slots come before the empty ones. */
  ghost predicate PrefixFilled(slots: Slots)
  {
    forall i, j :: 0 <= i < j < |slots| && slots[j].Some? ==> slots[i].Some?
  }

  /** With the filled slots a prefix, every slot after an empty one is empty. */
  lemma EmptyFromHere(slots: Slots, e: nat, i: nat)
    requires PrefixFilled(slots) && e <= i < |slots| && slots[e].None?
    ensures slots[i].None?
  {
  }

  /** Offering keeps the filled slots a prefix, and fills one more slot while one is empty. */
  lemma OfferShape(slots: Slots, c: Candidate)
    requires PrefixFilled(slots)
    ensures |Offer(slots, c)| == |slots|
    ensures PrefixFilled(Offer(slots, c))
    ensures FirstEmpty(Offer(slots, c), 0) == if FirstEmpty(slots, 0) < |slots| then FirstEmpty(slots, 0) + 1 else |slots|
  {
    var e := FirstEmpty(slots, 0);
    var r := Offer(slots, c);
    forall i | 0 <= i < |slots|
      ensures r[i].Some? <==> i <= e
    {
      if i > e {
        assert slots[i].None?;
      }
    }
    if e < |slots| {
      FirstEmptyUnique(r, 0, e + 1);
    }
  }

  /** After n entries have been offered, exactly min(n, 5) slots are filled, and they come first. */
  lemma {:induction false} ScanShape(entries: seq<Candidate>)
    ensures |Scan(entries)| == NumSuggestions
    ensures PrefixFilled(Scan(entries))
    ensures FirstEmpty(Scan(entries), 0) == if |entries| < NumSuggestions then |entries| else NumSuggestions
  {
    if entries == [] {
      assert FirstEmpty(EmptySlots(), 0) == 0;
    } else {
      var prefix := entries[..|entries| - 1];
      ScanShape(prefix);
      OfferShape(Scan(prefix), entries[|entries| - 1]);
    }
  }

  /** Every filled slot holds one of the entries, with the distance it was offered with. */
  lemma {:induction false} ScanMembers(entries: seq<Candidate>)
    ensures forall i :: 0 <= i < |Scan(entries)| && Scan(entries)[i].Some? ==> Scan(entries)[i].value in entries
  {
    if entries != [] {
      var prefix := entries[..|entries| - 1];
      ScanMembers(prefix);
      forall i | 0 <= i < |Scan(entries)| && Scan(entries)[i].Some?
        ensures Scan(entries)[i].value in entries
      {
        var prev := Scan(prefix);
        if Scan(entries)[i] == prev[i] {
          assert prev[i].value in prefix;
        }
      }
    }
  }

  // ---------------------------------------------------------------------------------------
  // The replacement rule
  // ---------------------------------------------------------------------------------------

  /**
   * A filled slot changes only to the candidate, only when the candidate's distance is
   * strictly smaller than the slot's (and the slot's below the sentinel), and only for the
   * first of the filled slots with the smallest distance above the candidate's.
   */
  lemma OfferOverwrites(slots: Slots, c: Candidate, i: nat)
    requires i < |slots| && slots[i].Some? && Offer(slots, c)[i] != slots[i]
    ensures Offer(slots, c)[i] == Some(c)
    ensures c.1 < slots[i].value.1 < Sentinel
    ensures forall j :: 0 <= j < FirstEmpty(slots, 0) && c.1 < slots[j].value.1 < Sentinel ==> slots[i].value.1 <= slots[j].value.1
    ensures forall j :: 0 <= j < i && c.1 < slots[j].value.1 ==> slots[i].value.1 < slots[j].value.1
  {
    var e := FirstEmpty(slots, 0);
    assert i != e;
    assert i == Target(slots, c.1, e).0;
  }

  /** No slot's distance grows, and no filled slot empties. */
  lemma OfferNeverWorse(slots: Slots, c: Candidate)
    ensures |Offer(slots, c)| == |slots|
    ensures forall i :: 0 <= i < |slots| && slots[i].Some? ==>
      Offer(slots, c)[i].Some? && Offer(slots, c)[i].value.1 <= slots[i].value.1
    ensures forall i :: 0 <= i < |slots| && slots[i].Some? && slots[i].value.1 <= c.1 ==>
      Offer(slots, c)[i] == slots[i]
  {
    forall i | 0 <= i < |slots| && slots[i].Some? && Offer(slots, c)[i] != slots[i]
      ensures Offer(slots, c)[i].value.1 <= slots[i].value.1
      ensures slots[i].value.1 > c.1
    {
      OfferOverwrites(slots, c, i);
    }
  }

  /** A candidate no closer than a filled slot never evicts it: equal distances keep the first seen. */
  lemma OfferKeepsCloser(slots: Slots, c: Candidate, i: nat)
    requires i < |slots| && slots[i].Some? && slots[i].value.1 <= c.1
    ensures Offer(slots, c)[i] == slots[i]
  {
    if Offer(slots, c)[i] != slots[i] {
      OfferOverwrites(slots, c, i);
    }
  }

  // ---------------------------------------------------------------------------------------
  // One candidate in two slots, and the update that fills or overwrites
  // ---------------------------------------------------------------------------------------

  /**
   * The loop picks slot 0 (distance 3, above 1), then reaches the empty slot 1 and fills it
   * with the candidate; the overwrite after the loop still fires, so "b" fills two slots.
   */
  lemma OfferDuplicates()
    ensures var slots := [Some(("a", 3)), None, None, None, None];
            Offer(slots, ("b", 1)) == [Some(("b", 1)), Some(("b", 1)), None, None, None]
  {
    var slots: Slots := [Some(("a", 3)), None, None, None, None];
    assert FirstEmpty(slots, 1) == 1;
    assert FirstEmpty(slots, 0) == 1;
    assert Target(slots, 1, 0) == (-1, Sentinel);
    assert Target(slots, 1, 1) == (0, 3);
  }

  /**
   * The update the loop is meant to make: fill the first empty slot if there is one, and
   * only when all slots are filled overwrite the slot the loop picks.
   */
  function OfferCorrected(slots: Slots, c: Candidate): Slots
  {
    var e := FirstEmpty(slots, 0);
    if e < |slots| then slots[e := Some(c)]
    else
      var t := Target(slots, c.1, e).0;
      if t >= 0 then slots[t := Some(c)] else slots
  }

  /** The slots after the entries have been offered to them in order, by the corrected update. */
  function OfferAllCorrected(slots: Slots, entries: seq<Candidate>): Slots
  {
    if entries == [] then slots
    else OfferCorrected(OfferAllCorrected(slots, entries[..|entries| - 1]), entries[|entries| - 1])
  }

  /** The corrected slots after the entries have been offered in order, from empty slots. */
  function ScanCorrected(entries: seq<Candidate>): Slots
  {
    OfferAllCorrected(EmptySlots(), entries)
  }

  /** Offering two runs of entries one after the other is offering their concatenation. */
  lemma {:induction false} OfferAllCorrectedAppend(slots: Slots, a: seq<Candidate>, b: seq<Candidate>)
    ensures OfferAllCorrected(slots, a + b) == OfferAllCorrected(OfferAllCorrected(slots, a), b)
    decreases |b|
  {
    if b == [] {
      assert a + b == a;
    } else {
      var b' := b[..|b| - 1];
      assert (a + b)[..|a + b| - 1] == a + b';
      OfferAllCorrectedAppend(slots, a, b');
    }
  }

  /** The corrected update keeps the filled slots a prefix too, filling one more while one is empty. */
  lemma OfferCorrectedShape(slots: Slots, c: Candidate)
    requires PrefixFilled(slots)
    ensures |OfferCorrected(slots, c)| == |slots|
    ensures PrefixFilled(OfferCorrected(slots, c))
    ensures FirstEmpty(OfferCorrected(slots, c), 0) == if FirstEmpty(slots, 0) < |slots| then FirstEmpty(slots, 0) + 1 else |slots|
  {
    var e := FirstEmpty(slots, 0);
    var r := OfferCorrected(slots, c);
    forall i | 0 <= i < |slots|
      ensures r[i].Some? <==> i <= e
    {
      if i > e {
        assert slots[i].None?;
      }
    }
    if e < |slots| {
      FirstEmptyUnique(r, 0, e + 1);
    }
  }

  /** After n entries, the corrected slots hold min(n, 5) entries, first. */
  lemma {:induction false} ScanCorrectedShape(entries: seq<Candidate>)
    ensures |ScanCorrected(entries)| == NumSuggestions
    ensures PrefixFilled(ScanCorrected(entries))
    ensures FirstEmpty(ScanCorrected(entries), 0) == if |entries| < NumSuggestions then |entries| else NumSuggestions
  {
    if entries == [] {
      assert FirstEmpty(EmptySlots(), 0) == 0;
    } else {
      var prefix := entries[..|entries| - 1];
      ScanCorrectedShape(prefix);
      OfferCorrectedShape(ScanCorrected(prefix), entries[|entries| - 1]);
    }
  }

  /** The corrected loop: the overwrite happens only when the loop found no empty slot. */
  method UpdateSlotsCorrected(slots: array<Option<Candidate>>, c: Candidate)
    modifies slots
    ensures slots[..] == OfferCorrected(old(slots[..]), c)
  {
    ghost var before := slots[..];
    ghost var e := FirstEmpty(before, 0);
    var smallestDistance := Sentinel;
    var smallestDistanceIndex := -1;
    var s := 0;
    while s < slots.Length
      invariant 0 <= s <= e
      invariant slots[..] == before
      invariant smallestDistanceIndex == Target(before, c.1, s).0
      invariant smallestDistance == Target(before, c.1, s).1
    {
      if slots[s].None? {
        slots[s] := Some(c);
        return;
      } else if c.1 < slots[s].value.1 && slots[s].value.1 < smallestDistance {
        smallestDistance := slots[s].value.1;
        smallestDistanceIndex := s;
      }
      s := s + 1;
    }
    assert s == e == slots.Length && slots[..] == before;
    if smallestDistanceIndex > -1 {
      slots[smallestDistanceIndex] := Some(c);
    }
  }

  /** No key is held by two filled slots. */
  ghost predicate DistinctKeys(slots: Slots)
  {
    forall i, j :: 0 <= i < j < |slots| && slots[i].Some? && slots[j].Some? ==> slots[i].value.0 != slots[j].value.0
  }

  /** The corrected scan only ever holds entries it was offered. */
  lemma {:induction false} ScanCorrectedMembers(entries: seq<Candidate>)
    ensures |ScanCorrected(entries)| == NumSuggestions
    ensures forall i :: 0 <= i < NumSuggestions && ScanCorrected(entries)[i].Some? ==> ScanCorrected(entries)[i].value in entries
  {
    if entries != [] {
      var prefix := entries[..|entries| - 1];
      ScanCorrectedMembers(prefix);
      forall i | 0 <= i < NumSuggestions && ScanCorrected(entries)[i].Some?
        ensures ScanCorrected(entries)[i].value in entries
      {
        var prev := ScanCorrected(prefix);
        if ScanCorrected(entries)[i] == prev[i] {
          assert prev[i].value in prefix;
        }
      }
    }
  }

  /** When the entries' keys are distinct, as a map's keys are, so are the corrected slots'. */
  lemma {:induction false} ScanCorrectedDistinct(entries: seq<Candidate>)
    requires forall i, j :: 0 <= i < j < |entries| ==> entries[i].0 != entries[j].0
    ensures DistinctKeys(ScanCorrected(entries))
  {
    if entries != [] {
      var prefix, c := entries[..|entries| - 1], entries[|entries| - 1];
      ScanCorrectedDistinct(prefix);
      ScanCorrectedMembers(prefix);
      var prev := ScanCorrected(prefix);
      forall i | 0 <= i < |prev| && prev[i].Some?
        ensures prev[i].value.0 != c.0
      {
        var k :| 0 <= k < |prefix| && prefix[k] == prev[i].value;
      }
    }
  }
}
