/**
 * The collection checklist: one tick box per copy of every card name in the
 * deck, the two counters shown above the list, and the two per-group queries
 * the page uses (`isSetComplete`, `getOrderedCardsFromSet`).
 *
 * The specification functions work on `Flags`, the checklist as a value;
 * `ChecklistState` keeps the boxes in arrays that are ticked in place, as
 * the component keeps one writable signal per box.
 */
module Checklist {
  import opened Lodash
  import opened Cards
  import opened DeckList

  /** The checklist as a value: per card name, its tick boxes. */
  type Flags = map<string, seq<bool>>

  /** `n` unticked boxes. */
  function Falses(n: nat): (s: seq<bool>)
    ensures |s| == n && forall i :: 0 <= i < n ==> !s[i]
  {
    seq(n, _ => false)
  }

  /**
   * The checklist the rebuild produces from the deck rows: every row writes
   * a fresh run of unticked boxes under its name, so a later row with the
   * same name replaces the boxes of an earlier one.
   */
  function Build(cards: seq<DeckCard>): (flags: Flags)
    ensures flags.Keys == KeySet(cards, DeckName)
  {
    if cards == [] then map[]
    else
      var init, last := cards[..|cards| - 1], cards[|cards| - 1];
      assert cards == init + [last];
      KeySetSnoc(init, last, DeckName);
      Build(init)[last.name := Falses(last.amount)]
  }

  /**
   * The rebuilt checklist has a key for each name of the deck and, under
   * it, as many unticked boxes as the amount of the LAST row with that name.
   */
  lemma {:induction false} BuildLastWins(cards: seq<DeckCard>)
    ensures Build(cards).Keys == KeySet(cards, DeckName)
    ensures forall n :: n in Build(cards) ==>
      n in KeySet(cards, DeckName) && Build(cards)[n] == Falses(cards[LastIndex(cards, DeckName, n)].amount)
  {
    if cards != [] {
      var init, last := cards[..|cards| - 1], cards[|cards| - 1];
      assert cards == init + [last];
      BuildLastWins(init);
      KeySetSnoc(init, last, DeckName);
    }
  }

  /** What one more row adds to the checklist and to its list of names. */
  lemma RebuildStep(cards: seq<DeckCard>, i: nat)
    requires i < |cards|
    ensures Build(cards[..i + 1]) == Build(cards[..i])[cards[i].name := Falses(cards[i].amount)]
    ensures GroupKeys(cards[..i + 1], DeckName) == GroupKeys(cards[..i], DeckName) +
      if cards[i].name in KeySet(cards[..i], DeckName) then [] else [cards[i].name]
  {
    assert cards[..i + 1] == cards[..i] + [cards[i]];
    assert cards[..i + 1][..i] == cards[..i];
    GroupKeysSnoc(cards[..i], cards[i], DeckName);
  }

  /**
   * Right after the rebuild the names of the deck are listed once each, and
   * every box is unticked, so the two counters agree.
   */
  lemma BuildCounts(cards: seq<DeckCard>)
    ensures NoDup(GroupKeys(cards, DeckName))
    ensures Covers(Build(cards), GroupKeys(cards, DeckName))
    ensures ChecklistUnticked(Build(cards), GroupKeys(cards, DeckName)) == ChecklistBoxes(Build(cards), GroupKeys(cards, DeckName))
  {
    BuildLastWins(cards);
    ChecklistUntickedAllFalse(Build(cards), GroupKeys(cards, DeckName));
  }

  /** Number of unticked boxes in `s`. */
  function RunUnticked(s: seq<bool>): (r: nat)
    ensures r <= |s|
  {
    if s == [] then 0
    else RunUnticked(s[..|s| - 1]) + if s[|s| - 1] then 0 else 1
  }

  /** Ticking or unticking one box moves the count of unticked boxes by one. */
  lemma {:induction false} RunUntickedToggle(s: seq<bool>, i: nat)
    requires i < |s|
    ensures RunUnticked(s[i := !s[i]]) == if s[i] then RunUnticked(s) + 1 else RunUnticked(s) - 1
  {
    var t := s[i := !s[i]];
    if i < |s| - 1 {
      assert t[..|t| - 1] == s[..|s| - 1][i := !s[i]];
      RunUntickedToggle(s[..|s| - 1], i);
    } else {
      assert t[..|t| - 1] == s[..|s| - 1];
    }
  }

  /** A run of unticked boxes is all unticked. */
  lemma {:induction false} RunUntickedFalses(n: nat)
    ensures RunUnticked(Falses(n)) == n
  {
    if n > 0 {
      assert Falses(n)[..n - 1] == Falses(n - 1);
      RunUntickedFalses(n - 1);
    }
  }

  /** Every listed name has boxes. */
  predicate Covers(flags: Flags, names: seq<string>) {
    forall n :: n in names ==> n in flags
  }

  /** No name is listed twice. */
  predicate NoDup(names: seq<string>) {
    forall i, j :: 0 <= i < j < |names| ==> names[i] != names[j]
  }

  /** The number of boxes under the listed names (`totals.length`). */
  function ChecklistBoxes(flags: Flags, names: seq<string>): (r: nat)
    requires Covers(flags, names)
  {
    if names == [] then 0
    else ChecklistBoxes(flags, names[..|names| - 1]) + |flags[names[|names| - 1]]|
  }

  /** The number of unticked boxes under the listed names. */
  function ChecklistUnticked(flags: Flags, names: seq<string>): (r: nat)
    requires Covers(flags, names)
    ensures r <= ChecklistBoxes(flags, names)
  {
    if names == [] then 0
    else ChecklistUnticked(flags, names[..|names| - 1]) + RunUnticked(flags[names[|names| - 1]])
  }

  /** When no box is ticked, every box is counted as incomplete. */
  lemma {:induction false} ChecklistUntickedAllFalse(flags: Flags, names: seq<string>)
    requires Covers(flags, names)
    requires forall n, i :: n in names && 0 <= i < |flags[n]| ==> !flags[n][i]
    ensures ChecklistUnticked(flags, names) == ChecklistBoxes(flags, names)
  {
    if names != [] {
      var init, last := names[..|names| - 1], names[|names| - 1];
      ChecklistUntickedAllFalse(flags, init);
      assert flags[last] == Falses(|flags[last]|);
      RunUntickedFalses(|flags[last]|);
    }
  }

  /**
   * Replacing the boxes of one listed name changes the totals by the
   * difference between the old and the new boxes, and by nothing else.
   */
  lemma {:induction false} ReplaceOne(flags: Flags, names: seq<string>, name: string, s: seq<bool>)
    requires Covers(flags, names) && NoDup(names) && name in names
    ensures Covers(flags[name := s], names)
    ensures ChecklistBoxes(flags[name := s], names) == ChecklistBoxes(flags, names) - |flags[name]| + |s|
    ensures ChecklistUnticked(flags[name := s], names) == ChecklistUnticked(flags, names) - RunUnticked(flags[name]) + RunUnticked(s)
  {
    var init, last := names[..|names| - 1], names[|names| - 1];
    var g := flags[name := s];
    if last == name {
      assert name !in init;
      Untouched(flags, init, name, s);
    } else {
      assert name in init;
      ReplaceOne(flags, init, name, s);
    }
  }

  /** Replacing the boxes of a name that is not listed changes no total. */
  lemma {:induction false} Untouched(flags: Flags, names: seq<string>, name: string, s: seq<bool>)
    requires Covers(flags, names) && name !in names
    ensures Covers(flags[name := s], names)
    ensures ChecklistBoxes(flags[name := s], names) == ChecklistBoxes(flags, names)
    ensures ChecklistUnticked(flags[name := s], names) == ChecklistUnticked(flags, names)
  {
    if names != [] {
      Untouched(flags, names[..|names| - 1], name, s);
    }
  }

  /** All the boxes of the given rows, in row order (`.map(...).flat()`). */
  function ConcatFlags(cards: seq<DeckCard>, flags: Flags): seq<bool>
    requires forall d :: d in cards ==> d.name in flags
  {
    if cards == [] then []
    else flags[cards[0].name] + ConcatFlags(cards[1..], flags)
  }

  /** `.every((c) => c())`. */
  predicate AllTrue(s: seq<bool>) {
    forall i :: 0 <= i < |s| ==> s[i]
  }

  /** The flattened boxes are all ticked exactly when every box of every row is. */
  lemma {:induction false} ConcatFlagsAllTrue(cards: seq<DeckCard>, flags: Flags)
    requires forall d :: d in cards ==> d.name in flags
    ensures AllTrue(ConcatFlags(cards, flags)) <==>
      forall d, i :: d in cards && 0 <= i < |flags[d.name]| ==> flags[d.name][i]
  {
    if cards != [] {
      var head, rest := flags[cards[0].name], ConcatFlags(cards[1..], flags);
      ConcatFlagsAllTrue(cards[1..], flags);
      assert forall d :: d in cards <==> d == cards[0] || d in cards[1..] by {
        assert cards == [cards[0]] + cards[1..];
      }
      if AllTrue(head + rest) {
        assert AllTrue(head) by {
          forall i | 0 <= i < |head| ensures head[i] { assert (head + rest)[i] == head[i]; }
        }
        assert AllTrue(rest) by {
          forall i | 0 <= i < |rest| ensures rest[i] { assert (head + rest)[|head| + i] == rest[i]; }
        }
      }
    }
  }

  /** The sort key of `getOrderedCardsFromSet`: minus the number of boxes of the row's name. */
  function CopiesKey(lengths: map<string, nat>): DeckCard -> int {
    (d: DeckCard) => if d.name in lengths then -(lengths[d.name] as int) else 0
  }

  /** The number of unticked boxes in one array. */
  method CountArrayUnticked(boxes: array<bool>) returns (n: nat)
    ensures n == RunUnticked(boxes[..])
  {
    n := 0;
    var j := 0;
    while j < boxes.Length
      invariant 0 <= j <= boxes.Length
      invariant n == RunUnticked(boxes[..j])
    {
      assert boxes[..j + 1][..j] == boxes[..j];
      if !boxes[j] {
        n := n + 1;
      }
      j := j + 1;
    }
    assert boxes[..j] == boxes[..];
  }

  /**
   * The checklist state of the component: the boxes per name, the names in
   * the order they were first written (the key order of the record), and the
   * two counters. The ghost field `boxes` is the checklist as a value.
   */
  class ChecklistState {
    var checkList: map<string, array<bool>>
    var names: seq<string>
    var totalUniqueCards: nat
    var incompleteCards: nat
    ghost var boxes: Flags

    /** `boxes` holds the keys and the contents of the arrays. */
    ghost predicate Coupled()
      reads this`checkList, this`boxes, checkList.Values
    {
      (forall n :: n in checkList <==> n in boxes)
      && forall n :: n in checkList ==> checkList[n][..] == boxes[n]
    }

    /** The names are exactly the keys. */
    ghost predicate Listed()
      reads this`checkList, this`names
    {
      forall n :: n in checkList <==> n in names
    }

    /** No two names share an array of boxes. */
    ghost predicate Unshared()
      reads this`checkList
    {
      forall a, b :: a in checkList && b in checkList && a != b ==> checkList[a] != checkList[b]
    }

    /**
     * The names list the keys once each, no two names share an array, and
     * `totalUniqueCards` is the number of boxes.
     */
    ghost predicate Shape()
      reads this`checkList, this`names, this`totalUniqueCards, this`boxes, checkList.Values
    {
      Coupled() && NoDup(names) && Listed() && Unshared() && totalUniqueCards == ChecklistBoxes(boxes, names)
    }

    /** Besides the shape, `incompleteCards` is the number of unticked boxes. */
    ghost predicate Valid()
      reads this, checkList.Values
    {
      Shape() && incompleteCards == ChecklistUnticked(boxes, names)
    }

    /** The empty checklist the component starts with. */
    constructor()
      ensures Valid() && boxes == map[] && names == []
      ensures totalUniqueCards == 0 && incompleteCards == 0
    {
      checkList := map[];
      names := [];
      totalUniqueCards := 0;
      incompleteCards := 0;
      boxes := map[];
    }

    /**
     * The effect that runs whenever the deck rows change: a new, unticked
     * checklist with a run of boxes per name, and both counters set to the
     * number of boxes.
     */
    method Rebuild(cards: seq<DeckCard>)
      modifies this
      ensures Valid()
      ensures boxes == Build(cards)
      ensures names == GroupKeys(cards, DeckName)
      ensures totalUniqueCards == incompleteCards == ChecklistBoxes(boxes, names)
      ensures forall n :: n in checkList ==> fresh(checkList[n])
    {
      checkList := map[];
      names := [];
      boxes := map[];
      Fill(cards);
      var total := CountStateBoxes();
      BuildCounts(cards);
      SetCounters(total);
    }

    /** Both counters set to the same number, as the rebuild does with the box count. */
    method SetCounters(total: nat)
      modifies this`totalUniqueCards, this`incompleteCards
      ensures totalUniqueCards == total && incompleteCards == total
    {
      totalUniqueCards := total;
      incompleteCards := total;
    }

    /**
     * The `forEach` of the rebuild: each row, in order, puts a new run of
     * unticked boxes under its name.
     */
    method Fill(cards: seq<DeckCard>)
      requires checkList == map[] && names == [] && boxes == map[]
      modifies this`checkList, this`names, this`boxes
      ensures boxes == Build(cards)
      ensures names == GroupKeys(cards, DeckName)
      ensures Coupled() && Listed() && Unshared()
      ensures forall n :: n in checkList ==> fresh(checkList[n])
    {
      var i := 0;
      while i < |cards|
        invariant 0 <= i <= |cards|
        invariant boxes == Build(cards[..i])
        invariant names == GroupKeys(cards[..i], DeckName)
        invariant Coupled() && Listed() && Unshared()
        invariant forall n :: n in checkList ==> fresh(checkList[n])
      {
        RebuildStep(cards, i);
        ghost var before := checkList;
        Put(cards[i].name, cards[i].amount);
        assert forall n :: n in checkList ==> fresh(checkList[n]) by {
          forall n | n in checkList ensures fresh(checkList[n]) {
            if n != cards[i].name {
              assert checkList[n] == before[n];
            }
          }
        }
        i := i + 1;
      }
      assert cards[..i] == cards;
    }

    /**
     * One step of the rebuild: a new run of unticked boxes under the name,
     * replacing any boxes it had; the name is listed if it is new.
     */
    method Put(name: string, amount: nat)
      requires Coupled() && Listed() && Unshared()
      modifies this`checkList, this`names, this`boxes
      ensures Coupled() && Listed() && Unshared()
      ensures boxes == old(boxes)[name := Falses(amount)]
      ensures names == old(names) + if name in old(checkList) then [] else [name]
      ensures fresh(checkList[name])
      ensures forall n :: n in old(checkList) && n != name ==> checkList[n] == old(checkList[n])
    {
      var run := new bool[amount](_ => false);
      if name !in checkList {
        names := names + [name];
      }
      ghost var before := checkList;
      checkList := checkList[name := run];
      boxes := boxes[name := Falses(amount)];
      assert run[..] == Falses(amount);
      assert Unshared() by {
        forall a, b | a in checkList && b in checkList && a != b
          ensures checkList[a] != checkList[b]
        {
          if a != name && b != name {
            assert checkList[a] == before[a] && checkList[b] == before[b];
          }
        }
      }
    }

    /** The number of boxes under all names (`totals.length`). */
    method CountStateBoxes() returns (total: nat)
      requires Coupled() && Listed()
      ensures Covers(boxes, names) && total == ChecklistBoxes(boxes, names)
    {
      total := 0;
      var k := 0;
      while k < |names|
        invariant 0 <= k <= |names|
        invariant Covers(boxes, names[..k]) && total == ChecklistBoxes(boxes, names[..k])
      {
        assert names[..k + 1][..k] == names[..k];
        assert |checkList[names[k]][..]| == checkList[names[k]].Length;
        total := total + checkList[names[k]].Length;
        k := k + 1;
      }
      assert names[..k] == names;
    }

    /** The number of unticked boxes under all names. */
    method CountStateUnticked() returns (count: nat)
      requires Coupled() && Listed()
      ensures Covers(boxes, names) && count == ChecklistUnticked(boxes, names)
    {
      count := 0;
      var k := 0;
      while k < |names|
        invariant 0 <= k <= |names|
        invariant Covers(boxes, names[..k]) && count == ChecklistUnticked(boxes, names[..k])
      {
        assert names[..k + 1][..k] == names[..k];
        var here := CountArrayUnticked(checkList[names[k]]);
        count := count + here;
        k := k + 1;
      }
      assert names[..k] == names;
    }

    /** `recalculateIncomplete`: counts the unticked boxes again. */
    method RecalculateIncomplete()
      requires Shape()
      modifies this`incompleteCards
      ensures Valid()
    {
      incompleteCards := CountStateUnticked();
    }

    /**
     * `toggleCollectionCard`: flips one box of a name and recounts; only
     * that box changes, and the incomplete counter moves by one in the
     * matching direction.
     */
    method ToggleCollectionCard(name: string, index: nat)
      requires Valid()
      requires name in checkList && index < checkList[name].Length
      modifies checkList[name], this`incompleteCards, this`boxes
      ensures Valid()
      ensures boxes == old(boxes)[name := old(boxes[name])[index := !old(boxes[name][index])]]
      ensures incompleteCards == if old(boxes[name][index]) then old(incompleteCards) + 1 else old(incompleteCards) - 1
    {
      ghost var before := boxes;
      Flip(name, index);
      ReplaceOne(before, names, name, boxes[name]);
      RunUntickedToggle(before[name], index);
      RecalculateIncomplete();
    }

    /** The flip itself: one box of one array, mirrored in `boxes`. */
    method Flip(name: string, index: nat)
      requires Coupled() && Unshared()
      requires name in checkList && index < checkList[name].Length
      modifies checkList[name], this`boxes
      ensures Coupled()
      ensures boxes == old(boxes)[name := old(boxes[name])[index := !old(boxes[name][index])]]
    {
      var run := checkList[name];
      run[index] := !run[index];
      boxes := boxes[name := run[..]];
      assert Coupled() by {
        forall n | n in checkList ensures checkList[n][..] == boxes[n] {
          if n != name {
            assert checkList[n] != run;
          }
        }
      }
    }

    /** The checklist as a value, read from the arrays. */
    function Snapshot(): (f: Flags)
      reads this`checkList, checkList.Values
      ensures forall n :: n in f <==> n in checkList
      ensures forall n :: n in f ==> f[n] == checkList[n][..]
    {
      map n | n in checkList :: checkList[n][..]
    }

    /** The number of boxes per name. */
    function Lengths(): (m: map<string, nat>)
      reads this`checkList
      ensures m.Keys == checkList.Keys
    {
      map n | n in checkList :: checkList[n].Length
    }

    /**
     * `isSetComplete`: every box of every row in the group is ticked.
     */
    function IsSetComplete(groups: map<string, seq<DeckCard>>, k: string): (r: bool)
      reads this`checkList, checkList.Values
      requires k in groups && forall d :: d in groups[k] ==> d.name in checkList
      ensures r <==> forall d, i :: d in groups[k] && 0 <= i < checkList[d.name].Length ==> checkList[d.name][i]
    {
      ConcatFlagsAllTrue(groups[k], Snapshot());
      AllTrue(ConcatFlags(groups[k], Snapshot()))
    }

    /**
     * `getOrderedCardsFromSet`: the rows of the group, most boxes first, rows
     * with as many boxes kept in group order; nothing for a missing group.
     */
    function OrderedCardsFromSet(groups: map<string, seq<DeckCard>>, k: string): (r: seq<DeckCard>)
      reads this`checkList
      requires k in groups ==> forall d :: d in groups[k] ==> d.name in checkList
      ensures k !in groups ==> r == []
      ensures k in groups ==> multiset(r) == multiset(groups[k])
      ensures k in groups ==> forall d :: d in r ==> d.name in checkList
      ensures k in groups ==> forall i, j :: 0 <= i < j < |r| ==>
        checkList[r[i].name].Length >= checkList[r[j].name].Length
      ensures k in groups ==> forall v :: Filter(r, CopiesKey(Lengths()), v) == Filter(groups[k], CopiesKey(Lengths()), v)
    {
      if k !in groups then []
      else
        var key := CopiesKey(Lengths());
        SortBySortedStable(groups[k], key);
        var r := SortBy(groups[k], key);
        assert forall d :: d in r ==> d in groups[k] by {
          forall d | d in r ensures d in groups[k] { assert d in multiset(r); }
        }
        r
    }
  }

  /**
   * After the rebuild from the deck rows, every row of every group has boxes,
   * so both per-group queries are defined on every group the page shows.
   */
  lemma RebuildCoversGroups(cards: seq<DeckCard>, sort: SortKey)
    ensures forall k, d :: k in CardsAndSets(cards, sort) && d in CardsAndSets(cards, sort)[k] ==>
      d.name in Build(cards)
  {
    GroupedRowsAreRows(cards, sort);
    BuildLastWins(cards);
    forall k, d | k in CardsAndSets(cards, sort) && d in CardsAndSets(cards, sort)[k]
      ensures d.name in Build(cards)
    {
      assert DeckName(d) in KeySet(cards, DeckName);
    }
  }
}
