/**
 * The deck-list pipeline of the application component: each line of the
 * pasted text is parsed into an amount and a card name, the name is resolved
 * against the card table into deck rows, and the rows are grouped by set,
 * colour, rarity or type with the group keys in ascending order.
 */
module DeckList {
  import opened Wrappers
  import opened Strings
  import opened Lodash
  import opened Cards

  /** The amount and cleaned card name read from one line. */
  datatype ParsedLine = ParsedLine(amount: nat, name: string)

  const BasicLands: seq<string> := ["Plains", "Mountain", "Island", "Swamp", "Forest", "Wastes"]

  predicate IsBasicLand(name: string) {
    name in BasicLands
  }

  /**
   * The name cut at the first `(` and then at the first `[`, both positions
   * taken in the uncut name: the longest prefix holding neither bracket.
   */
  function CutAtBracket(name: string): (r: string)
    ensures '(' !in r && '[' !in r
    ensures |r| <= |name| && r == name[..|r|]
    ensures |r| < |name| ==> name[|r|] == '(' || name[|r|] == '['
  {
    var paren := IndexOf(name, '(');
    var brack := IndexOf(name, '[');
    var cut := if paren != -1 then SliceTo(name, paren) else name;
    assert cut == name[..|cut|];
    if brack != -1 then SliceTo(cut, brack) else cut
  }

  /**
   * The parsing half of `parseCardLine`: trim, split on single spaces, drop
   * the first `x` of the amount token, reject an empty or non-numeric
   * amount, and rebuild and clean the name.
   */
  function ParseLine(line: string): (r: Option<ParsedLine>)
    ensures (forall k :: 0 <= k < |line| ==> IsWhite(line[k])) ==> r == None
    ensures r.Some? ==> '(' !in r.value.name && '[' !in r.value.name
    ensures r.Some? && r.value.name != [] ==> !IsWhite(r.value.name[0]) && !IsWhite(r.value.name[|r.value.name| - 1])
  {
    var t := Trim(line);
    if t == "" then None
    else
      var tokens := Split(t, ' ');
      var amountText := RemoveFirst(tokens[0], 'x');
      if amountText == "" || !AllDigits(amountText) then None
      else
        Some(ParsedLine(ParseDecimal(amountText), Trim(CutAtBracket(Join(tokens[1..], ' ')))))
  }

  /**
   * The amount token is the text before the first space and the name is
   * everything after it: splitting and re-joining on single spaces only
   * cuts the line at its first space, and a line without a space has an
   * empty name.
   */
  lemma ParseLineAtFirstSpace(line: string)
    ensures var t := Trim(line);
      var first := if ' ' in t then t[..IndexOf(t, ' ')] else t;
      var rest := if ' ' in t then t[IndexOf(t, ' ') + 1..] else "";
      var amountText := RemoveFirst(first, 'x');
      ParseLine(line) ==
        if t == "" || amountText == "" || !AllDigits(amountText) then None
        else Some(ParsedLine(ParseDecimal(amountText), Trim(CutAtBracket(rest))))
  {
    TailAfterFirst(Trim(line), ' ');
  }

  /** A bare amount is accepted, with an empty name. */
  lemma ParseBareAmount()
    ensures ParseLine("4") == Some(ParsedLine(4, ""))
  {
    var s := "4";
    TrimUntouched(s);
    assert IndexOf(s, ' ') == -1;
    assert Split(s, ' ') == [s];
    assert IndexOf(s, 'x') == -1;
    assert AllDigits(s);
    assert ParseDecimal(s) == 10 * ParseDecimal(s[..0]) + 4;
    assert CutAtBracket("") == "";
  }

  /** A line of white space only is skipped. */
  lemma ParseBlank()
    ensures ParseLine("   ") == None
  {
    var s := "   ";
    assert forall k :: 0 <= k < |s| ==> IsWhite(s[k]);
  }

  /** A tab after the amount is not a separator, so the amount token is not numeric. */
  lemma ParseTabbed()
    ensures ParseLine("4\tBolt") == None
  {
    var s := "4\tBolt";
    TrimUntouched(s);
    assert ' ' !in s;
    assert IndexOf(s, ' ') == -1;
    assert Split(s, ' ') == [s];
    assert 'x' !in s;
    assert !IsDigit(s[1]);
  }

  function BasicLandRow(name: string, amount: nat): DeckCard {
    DeckCard(name, [], name, "Basic Lands", "basicland", "Basic Land", amount)
  }

  function UnfoundRow(name: string, amount: nat): DeckCard {
    DeckCard(name, [], name, "Unfound", "Unfound", "Unfound", amount)
  }

  /** Every printing of the table with `c` copies. */
  function WithAmounts(cards: seq<Card>, amount: nat): (rows: seq<DeckCard>)
    ensures |rows| == |cards|
    ensures forall i :: 0 <= i < |cards| ==> rows[i] == WithAmount(cards[i], amount)
  {
    seq(|cards|, i requires 0 <= i < |cards| => WithAmount(cards[i], amount))
  }

  /**
   * The resolving half of `parseCardLine`: a basic land becomes one
   * synthetic row without looking at the table, a name no printing carries
   * becomes one `Unfound` row, and a known name becomes one row per distinct
   * set among its printings, each with the requested amount.
   */
  function Resolve(p: ParsedLine, data: seq<Card>): (rows: seq<DeckCard>)
    ensures |rows| >= 1
    ensures forall d :: d in rows ==> d.name == p.name && d.amount == p.amount
    ensures IsBasicLand(p.name) ==> rows == [DeckCard(p.name, [], p.name, "Basic Lands", "basicland", "Basic Land", p.amount)]
    ensures !IsBasicLand(p.name) && p.name !in KeySet(data, CardName) ==>
      rows == [DeckCard(p.name, [], p.name, "Unfound", "Unfound", "Unfound", p.amount)]
  {
    if IsBasicLand(p.name) then [BasicLandRow(p.name, p.amount)]
    else
      var refs := Filter(data, CardName, p.name);
      if |refs| == 0 then
        [UnfoundRow(p.name, p.amount)]
      else
        assert refs[0] in refs;
        var all := WithAmounts(refs, p.amount);
        assert forall d :: d in all ==> d.name == p.name && d.amount == p.amount by {
          forall d | d in all ensures d.name == p.name && d.amount == p.amount {
            var i :| 0 <= i < |all| && all[i] == d;
            assert refs[i] in refs;
          }
        }
        UniqBy(all, DeckSet)
  }

  /**
   * A name the table knows: one row per distinct set among its printings,
   * no set twice, each row a copy of the first printing in that set with
   * the requested amount, in the order in which the sets first occur.
   */
  lemma ResolveMatched(p: ParsedLine, data: seq<Card>)
    requires !IsBasicLand(p.name) && p.name in KeySet(data, CardName)
    ensures var matches := Filter(data, CardName, p.name);
      var rows := Resolve(p, data);
      && KeySet(rows, DeckSet) == KeySet(matches, CardSet)
      && (forall a :: 0 <= a < |rows| ==>
            rows[a].setName in KeySet(matches, CardSet) &&
            rows[a] == WithAmount(matches[FirstIndex(matches, CardSet, rows[a].setName)], p.amount))
      && (forall a, b :: 0 <= a < b < |rows| ==>
            rows[a].setName in KeySet(matches, CardSet) && rows[b].setName in KeySet(matches, CardSet) &&
            FirstIndex(matches, CardSet, rows[a].setName) < FirstIndex(matches, CardSet, rows[b].setName))
  {
    var matches := Filter(data, CardName, p.name);
    var all := WithAmounts(matches, p.amount);
    assert matches != [] by {
      var c :| c in data && c.name == p.name;
      assert c in matches;
    }
    SameKeysSameFirstIndex(matches, CardSet, all, DeckSet);
    UniqByKeys(all, DeckSet);
    UniqByFirstOccurrences(all, DeckSet);
  }

  /** `parseCardLine`: nothing for a rejected line, at least one row otherwise. */
  function ParseCardLine(line: string, data: seq<Card>): (r: Option<seq<DeckCard>>)
    ensures r.Some? <==> ParseLine(line).Some?
    ensures r.Some? ==> |r.value| >= 1 && forall d :: d in r.value ==> d.amount == ParseLine(line).value.amount
  {
    match ParseLine(line)
    case None => None
    case Some(p) => Some(Resolve(p, data))
  }

  /** `findSetForCard`: the set of the first printing with that name, or "Unknown". */
  function FindSetForCard(data: seq<Card>, name: string): (r: string)
    ensures name !in KeySet(data, CardName) ==> r == "Unknown"
    ensures name in KeySet(data, CardName) ==> r == data[FirstIndex(data, CardName, name)].setName
  {
    if data == [] then "Unknown"
    else if data[0].name == name then
      assert data[0] in data && CardName(data[0]) == name;
      data[0].setName
    else
      assert data == [data[0]] + data[1..];
      KeySetCons(data[0], data[1..], CardName);
      assert CardName(data[0]) != name;
      assert name in KeySet(data, CardName) ==>
        FirstIndex(data, CardName, name) == 1 + FirstIndex(data[1..], CardName, name);
      FindSetForCard(data[1..], name)
  }

  /** For a name the table knows, the set `findSetForCard` reports is that of the first deck row. */
  lemma FindSetForCardIsFirstRow(p: ParsedLine, data: seq<Card>)
    requires !IsBasicLand(p.name) && p.name in KeySet(data, CardName)
    ensures FindSetForCard(data, p.name) == Resolve(p, data)[0].setName
  {
    var matches := Filter(data, CardName, p.name);
    ResolveMatched(p, data);
    var first := FirstIndex(data, CardName, p.name);
    FilterHeadIsFirst(data, CardName, p.name);
    var rows := Resolve(p, data);
    var k := rows[0].setName;
    var j := FirstIndex(matches, CardSet, k);
    assert matches[0].setName in KeySet(matches, CardSet);
  }

  /** `.flat().filter(Boolean)` for one line: its rows, or none for a rejected line. */
  function LineRows(line: string, data: seq<Card>): seq<DeckCard> {
    match ParseCardLine(line, data)
    case None => []
    case Some(rows) => rows
  }

  /** The rows of the lines, in order: a row is listed exactly when some line gives it. */
  function RowsOf(lines: seq<string>, data: seq<Card>): (rows: seq<DeckCard>)
    ensures forall d :: d in rows <==> exists line :: line in lines && d in LineRows(line, data)
  {
    if lines == [] then []
    else
      var rest := RowsOf(lines[1..], data);
      assert forall line :: line in lines <==> line == lines[0] || line in lines[1..] by {
        assert lines == [lines[0]] + lines[1..];
      }
      LineRows(lines[0], data) + rest
  }

  lemma {:induction false} RowsOfAppend(a: seq<string>, b: seq<string>, data: seq<Card>)
    ensures RowsOf(a + b, data) == RowsOf(a, data) + RowsOf(b, data)
  {
    if a == [] {
      assert a + b == b;
    } else {
      assert (a + b)[1..] == a[1..] + b;
      RowsOfAppend(a[1..], b, data);
    }
  }

  /**
   * `allCards`: the rows of every line of the text, split on "\n",
   * concatenated; a row is in the deck exactly when some line gives it.
   */
  function AllCards(deckText: string, data: seq<Card>): (rows: seq<DeckCard>)
    ensures forall d :: d in rows <==> exists line :: line in Split(deckText, '\n') && d in LineRows(line, data)
  {
    RowsOf(Split(deckText, '\n'), data)
  }

  /**
   * A basic land never shows up among the unfound rows: its row is made
   * without looking at the table, under the set "Basic Lands".
   */
  lemma BasicLandsNeverUnfound(deckText: string, data: seq<Card>)
    ensures forall d :: d in UnfoundCards(AllCards(deckText, data)) ==> !IsBasicLand(d.name)
  {
    forall d | d in UnfoundCards(AllCards(deckText, data)) ensures !IsBasicLand(d.name) {
      var line :| line in Split(deckText, '\n') && d in LineRows(line, data);
      var p := ParseLine(line).value;
      assert d in Resolve(p, data);
    }
  }

  /** The rows of two texts joined by a newline are the rows of the first followed by those of the second. */
  lemma AllCardsAppend(a: string, b: string, data: seq<Card>)
    ensures AllCards(a + "\n" + b, data) == AllCards(a, data) + AllCards(b, data)
  {
    SplitAppend(a, b, '\n');
    RowsOfAppend(Split(a, '\n'), Split(b, '\n'), data);
  }

  /** The rows of one line are those `parseCardLine` gives for it. */
  lemma AllCardsOneLine(line: string, data: seq<Card>)
    requires '\n' !in line
    ensures AllCards(line, data) == LineRows(line, data)
  {
    assert Split(line, '\n') == [line];
    assert RowsOf([line], data) == LineRows(line, data) + RowsOf([], data);
  }

  /** `unfoundCards`: the rows whose set is "Unfound", in order. */
  function UnfoundCards(cards: seq<DeckCard>): (r: seq<DeckCard>)
    ensures |r| <= |cards|
    ensures forall d :: d in r <==> d in cards && d.setName == "Unfound"
  {
    Filter(cards, DeckSet, "Unfound")
  }

  /** The list that is grouped: every row under `Set`, the first row of each name otherwise. */
  function GroupSource(cards: seq<DeckCard>, sort: SortKey): seq<DeckCard> {
    if sort == Set then cards else UniqBy(cards, DeckName)
  }

  function KeyOf(sort: SortKey): DeckCard -> string {
    match sort
    case Set => DeckSet
    case Color => ColorKey
    case Rarity => DeckRarity
    case Type => DeckType
  }

  /**
   * `cardsAndSets`: the grouped list partitioned by key, a bucket per key
   * that occurs, holding exactly the rows with that key in list order.
   */
  function CardsAndSets(cards: seq<DeckCard>, sort: SortKey): (groups: map<string, seq<DeckCard>>)
    ensures groups.Keys == KeySet(GroupSource(cards, sort), KeyOf(sort))
    ensures forall k :: k in groups ==> groups[k] == Filter(GroupSource(cards, sort), KeyOf(sort), k)
  {
    GroupBy(GroupSource(cards, sort), KeyOf(sort))
  }

  /** `orderedSets`: every group key once, in strictly ascending order. */
  function OrderedSets(cards: seq<DeckCard>, sort: SortKey): (keys: seq<string>)
    ensures StrictlyAscending(keys)
    ensures forall k :: k in keys <==> k in CardsAndSets(cards, sort)
  {
    var ks := GroupKeys(GroupSource(cards, sort), KeyOf(sort));
    SortStringsAscending(ks);
    assert forall k :: k in SortStrings(ks) <==> k in multiset(ks);
    SortStrings(ks)
  }

  /**
   * Under `Color`, `Rarity` and `Type` the grouped list holds each name of
   * the deck once, as the first row with that name; under `Set` it is the
   * whole list.
   */
  lemma GroupSourceOnePerName(cards: seq<DeckCard>, sort: SortKey)
    ensures sort == Set ==> GroupSource(cards, sort) == cards
    ensures sort != Set ==> KeySet(GroupSource(cards, sort), DeckName) == KeySet(cards, DeckName)
    ensures sort != Set ==> forall a, b :: 0 <= a < b < |GroupSource(cards, sort)| ==>
      GroupSource(cards, sort)[a].name != GroupSource(cards, sort)[b].name
    ensures sort != Set ==> forall a :: 0 <= a < |GroupSource(cards, sort)| ==>
      GroupSource(cards, sort)[a].name in KeySet(cards, DeckName) &&
      GroupSource(cards, sort)[a] == cards[FirstIndex(cards, DeckName, GroupSource(cards, sort)[a].name)]
  {
    if sort != Set {
      UniqByKeys(cards, DeckName);
      UniqByDistinctKeys(cards, DeckName);
      UniqByFirstOccurrences(cards, DeckName);
    }
  }

  /** Every row of every group is a row of the list. */
  lemma GroupedRowsAreRows(cards: seq<DeckCard>, sort: SortKey)
    ensures forall k, d :: k in CardsAndSets(cards, sort) && d in CardsAndSets(cards, sort)[k] ==> d in cards
  {
    var groups := CardsAndSets(cards, sort);
    forall k, d | k in groups && d in groups[k] ensures d in cards {
      assert d in GroupSource(cards, sort);
    }
  }

  /** What the component derives from its inputs. */
  datatype View = View(
    allCards: seq<DeckCard>, unfoundCards: seq<DeckCard>,
    cardsAndSets: map<string, seq<DeckCard>>, orderedSets: seq<string>)

  /**
   * The signal graph as one function of its inputs: the deck text, the card
   * table and the sort choice.
   */
  function Recompute(deckText: string, data: seq<Card>, sort: SortKey): (v: View)
    ensures v.allCards == AllCards(deckText, data)
    ensures v.unfoundCards == Filter(v.allCards, DeckSet, "Unfound")
    ensures forall d :: d in v.unfoundCards <==> d in v.allCards && d.setName == "Unfound"
    ensures v.cardsAndSets.Keys == KeySet(GroupSource(v.allCards, sort), KeyOf(sort))
    ensures forall k :: k in v.cardsAndSets ==> v.cardsAndSets[k] == Filter(GroupSource(v.allCards, sort), KeyOf(sort), k)
    ensures forall k, d :: k in v.cardsAndSets && d in v.cardsAndSets[k] ==> d in v.allCards
    ensures StrictlyAscending(v.orderedSets)
    ensures forall k :: k in v.orderedSets <==> k in v.cardsAndSets
  {
    var cards := AllCards(deckText, data);
    GroupedRowsAreRows(cards, sort);
    View(cards, UnfoundCards(cards), CardsAndSets(cards, sort), OrderedSets(cards, sort))
  }
}
