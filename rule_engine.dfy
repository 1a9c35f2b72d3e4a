/** `GetOrder` / `GetRule` (`getOrder` / `getRule` in the Polish module): the
    first-match chain of eight rows that fixes the expected order of the seven
    candidate flags and names the row that fired. Both modules carry the same
    chain; only the rule labels differ. */
module RuleEngine {
  import Text
  import opened Catalog
  import opened Sorting

  /** The bomb facts the chain reads through `KMBombInfo`. */
  datatype Facts = Facts(
    serialNumber: string,   // GetSerialNumber()
    bobUnlit: bool,         // IsIndicatorOff(BOB)
    litIndicators: nat,     // GetOnIndicators().Count()
    rj45Present: bool)      // IsPortPresent(RJ45)

  /** The eight rows, in priority order. */
  datatype Rule = WhiteFlag | NorthAmerica | DialCode | IsoCode | Capital | Continent | Currency | LastRule

  function Rank(r: Rule): nat {
    match r
    case WhiteFlag => 0
    case NorthAmerica => 1
    case DialCode => 2
    case IsoCode => 3
    case Capital => 4
    case Continent => 5
    case Currency => 6
    case LastRule => 7
  }

  /** A value, or the `IndexOutOfRangeException` thrown by `main.Currency[2]`
      when the main country's currency has fewer than three characters. */
  datatype Outcome<T> = Value(value: T) | IndexOutOfRange

  // ----- the conditions of the rows -----

  /** `serial.Any(letters.Contains)`. */
  predicate SerialHasAnyOf(serial: string, letters: string) {
    exists i :: 0 <= i < |serial| && serial[i] in letters
  }

  /** Row 0: serial shares a letter with "WHITEFLAG", BOB is unlit, France is a candidate. */
  predicate WhiteFlagApplies(facts: Facts, cands: seq<nat>) {
    SerialHasAnyOf(facts.serialNumber, "WHITEFLAG") && facts.bobUnlit && FranceIndex in cands
  }

  /** Row 1: main country in North America and no lit indicator. */
  predicate NorthAmericaApplies(main: Country, facts: Facts) {
    main.continent == "North America" && facts.litIndicators == 0
  }

  /** Row 2: main dial code above 100 and an RJ-45 port. */
  predicate DialCodeApplies(main: Country, facts: Facts) {
    main.countryCode > 100 && facts.rj45Present
  }

  /** `main.Currency[2]` can be read. */
  predicate CurrencyReadable(main: Country) {
    |main.currency| >= 3
  }

  /** Rows 0-2 fail and `main.Currency[2]` cannot be read: row 3 throws. */
  predicate ThrowsAtIsoRow(facts: Facts, main: Country, cands: seq<nat>) {
    !WhiteFlagApplies(facts, cands) && !NorthAmericaApplies(main, facts)
    && !DialCodeApplies(main, facts) && !CurrencyReadable(main)
  }

  /** Row 3: the upper-cased main name contains the third character of its currency. */
  predicate IsoCodeApplies(main: Country) {
    CurrencyReadable(main) && main.currency[2] in Text.Upper(main.countryName)
  }

  /** Row 4: the main capital has more than nine letters. */
  predicate CapitalApplies(main: Country) {
    Text.CountLetters(main.capital) > 9
  }

  /** Row 5: main country in Europe with a currency other than EUR. */
  predicate ContinentApplies(main: Country) {
    main.continent == "Europe" && main.currency != "EUR"
  }

  /** Row 6: some candidate is on the main country's continent. */
  predicate CurrencyApplies(catalog: seq<Country>, main: Country, cands: seq<nat>)
    requires Indexes(catalog, cands)
  {
    exists i :: 0 <= i < |cands| && catalog[cands[i]].continent == main.continent
  }

  /** The condition of row `r` (the last row always applies). */
  predicate Applies(r: Rule, catalog: seq<Country>, facts: Facts, main: Country, cands: seq<nat>)
    requires Indexes(catalog, cands)
  {
    match r
    case WhiteFlag => WhiteFlagApplies(facts, cands)
    case NorthAmerica => NorthAmericaApplies(main, facts)
    case DialCode => DialCodeApplies(main, facts)
    case IsoCode => IsoCodeApplies(main)
    case Capital => CapitalApplies(main)
    case Continent => ContinentApplies(main)
    case Currency => CurrencyApplies(catalog, main, cands)
    case LastRule => true
  }

  // ----- the orderings -----

  /** The key row `r` sorts by: `OrderBy(primary)`, then `ThenBy(CountryName)`
      in the dial-code, continent and currency rows. */
  function RowKey(r: Rule, c: Country): SortKey {
    match r
    case DialCode => SortKey(Num(c.countryCode), Str(c.countryName))
    case IsoCode => SortKey(Str(c.countryIso), NoTieBreak)
    case Capital => SortKey(Str(c.capital), NoTieBreak)
    case Continent => SortKey(Str(c.continent), Str(c.countryName))
    case Currency => SortKey(Str(c.currency), Str(c.countryName))
    case _ => SortKey(Str(c.countryName), NoTieBreak)
  }

  /** The key of every catalog entry under row `r`. */
  function Keys(catalog: seq<Country>, r: Rule): seq<SortKey> {
    seq(|catalog|, i requires 0 <= i < |catalog| => RowKey(r, catalog[i]))
  }

  /** `Enumerable.Repeat(x, n)`. */
  function Repeat(x: nat, n: nat): (r: seq<nat>)
    ensures |r| == n && forall i :: 0 <= i < n ==> r[i] == x
  {
    if n == 0 then [] else Repeat(x, n - 1) + [x]
  }

  /** The ordering row `r` produces from the candidates in draw order. */
  function OrderFor(r: Rule, catalog: seq<Country>, cands: seq<nat>): (o: seq<nat>)
    ensures r == WhiteFlag ==> |o| == 7 && forall i :: 0 <= i < 7 ==> o[i] == FranceIndex
    ensures r != WhiteFlag ==> multiset(o) == multiset(cands) && |o| == |cands|
  {
    if r == WhiteFlag then Repeat(FranceIndex, 7) else SortBy(Keys(catalog, r), cands)
  }

  // ----- the two chains -----

  /** `GetOrder(main, list)`: the expected order of the candidates. */
  function GetOrder(catalog: seq<Country>, facts: Facts, main: Country, cands: seq<nat>): (o: Outcome<seq<nat>>)
    requires FranceIndex < |catalog| && Indexes(catalog, cands)
    ensures o == IndexOutOfRange <==> ThrowsAtIsoRow(facts, main, cands)
    ensures o.Value? && WhiteFlagApplies(facts, cands) ==> o.value == Repeat(FranceIndex, 7)
    ensures o.Value? && !WhiteFlagApplies(facts, cands) ==> multiset(o.value) == multiset(cands)
  {
    if WhiteFlagApplies(facts, cands) then Value(Repeat(FranceIndex, 7))
    else if NorthAmericaApplies(main, facts) then Value(SortBy(Keys(catalog, NorthAmerica), cands))
    else if DialCodeApplies(main, facts) then Value(SortBy(Keys(catalog, DialCode), cands))
    else if !CurrencyReadable(main) then IndexOutOfRange
    else if IsoCodeApplies(main) then Value(SortBy(Keys(catalog, IsoCode), cands))
    else if CapitalApplies(main) then Value(SortBy(Keys(catalog, Capital), cands))
    else if ContinentApplies(main) then Value(SortBy(Keys(catalog, Continent), cands))
    else if CurrencyApplies(catalog, main, cands) then Value(SortBy(Keys(catalog, Currency), cands))
    else Value(SortBy(Keys(catalog, LastRule), cands))
  }

  /** The chain of `GetRule(main, list)`, naming the row instead of its label. */
  function SelectRule(catalog: seq<Country>, facts: Facts, main: Country, cands: seq<nat>): (r: Outcome<Rule>)
    requires FranceIndex < |catalog| && Indexes(catalog, cands)
    ensures r.Value? ==> Applies(r.value, catalog, facts, main, cands)
  {
    if WhiteFlagApplies(facts, cands) then Value(WhiteFlag)
    else if NorthAmericaApplies(main, facts) then Value(NorthAmerica)
    else if DialCodeApplies(main, facts) then Value(DialCode)
    else if !CurrencyReadable(main) then IndexOutOfRange
    else if IsoCodeApplies(main) then Value(IsoCode)
    else if CapitalApplies(main) then Value(Capital)
    else if ContinentApplies(main) then Value(Continent)
    else if CurrencyApplies(catalog, main, cands) then Value(Currency)
    else Value(LastRule)
  }

  datatype Locale = English | Polish

  /** The strings `GetRule` (English) and `getRule` (Polish) return. */
  function Label(locale: Locale, r: Rule): (l: string)
    ensures l == "White Flag (Unicorn)" <==> r == WhiteFlag
  {
    match r
    case WhiteFlag => "White Flag (Unicorn)"
    case NorthAmerica => if locale == English then "1st Condition (Country Name)" else "1st Condition (Panstwa Name)"
    case DialCode => "2nd Condition (Dial Code)"
    case IsoCode => "3rd Condition (ISO Code)"
    case Capital => if locale == English then "4th Condition (Capital)" else "4th Condition (Stolica)"
    case Continent => if locale == English then "5th Condition (Continent)" else "5th Condition (Kontynent)"
    case Currency => if locale == English then "6th Condition (Currency)" else "6th Condition (Waluta)"
    case LastRule => if locale == English then "Last Rule (Country Name)" else "Last Rule (Panstwa Name)"
  }

  /** `GetRule(main, list)` / `getRule(main, list)`. */
  function GetRule(locale: Locale, catalog: seq<Country>, facts: Facts, main: Country, cands: seq<nat>): (l: Outcome<string>)
    requires FranceIndex < |catalog| && Indexes(catalog, cands)
    ensures l == IndexOutOfRange <==> ThrowsAtIsoRow(facts, main, cands)
  {
    match SelectRule(catalog, facts, main, cands)
    case Value(r) => Value(Label(locale, r))
    case IndexOutOfRange => IndexOutOfRange
  }

  // ----- properties -----

  /** The chain is first-match: row `r` is selected exactly when its condition
      holds, no earlier row's does, and (past row 3) the currency could be read. */
  lemma SelectRuleIsFirstMatch(catalog: seq<Country>, facts: Facts, main: Country, cands: seq<nat>, r: Rule)
    requires FranceIndex < |catalog| && Indexes(catalog, cands)
    ensures SelectRule(catalog, facts, main, cands) == Value(r)
        <==> && Applies(r, catalog, facts, main, cands)
             && (forall q :: Rank(q) < Rank(r) ==> !Applies(q, catalog, facts, main, cands))
             && (Rank(r) > Rank(IsoCode) ==> CurrencyReadable(main))
  {
    var sel := SelectRule(catalog, facts, main, cands);
    forall q | Rank(q) < Rank(r) && sel == Value(r)
      ensures !Applies(q, catalog, facts, main, cands)
    {}
    if && Applies(r, catalog, facts, main, cands)
       && (forall q :: Rank(q) < Rank(r) ==> !Applies(q, catalog, facts, main, cands))
       && (Rank(r) > Rank(IsoCode) ==> CurrencyReadable(main))
    {
      assert Rank(r) > 0 ==> !Applies(WhiteFlag, catalog, facts, main, cands);
      assert Rank(r) > 1 ==> !Applies(NorthAmerica, catalog, facts, main, cands);
      assert Rank(r) > 2 ==> !Applies(DialCode, catalog, facts, main, cands);
      assert Rank(r) > 3 ==> !Applies(IsoCode, catalog, facts, main, cands);
      assert Rank(r) > 4 ==> !Applies(Capital, catalog, facts, main, cands);
      assert Rank(r) > 5 ==> !Applies(Continent, catalog, facts, main, cands);
      assert Rank(r) > 6 ==> !Applies(Currency, catalog, facts, main, cands);
    }
  }

  /** The chain stops with the currency exception exactly when rows 0-2 fail
      and the main currency is shorter than three characters. */
  lemma SelectRuleThrows(catalog: seq<Country>, facts: Facts, main: Country, cands: seq<nat>)
    requires FranceIndex < |catalog| && Indexes(catalog, cands)
    ensures SelectRule(catalog, facts, main, cands) == IndexOutOfRange <==> ThrowsAtIsoRow(facts, main, cands)
  {}

  /** `GetOrder` and `GetRule` test the same conditions in the same order: the
      ordering returned is the one of the row the label names. */
  lemma GetOrderFollowsRule(catalog: seq<Country>, facts: Facts, main: Country, cands: seq<nat>)
    requires FranceIndex < |catalog| && Indexes(catalog, cands)
    ensures GetOrder(catalog, facts, main, cands)
         == match SelectRule(catalog, facts, main, cands)
            case Value(r) => Value(OrderFor(r, catalog, cands))
            case IndexOutOfRange => IndexOutOfRange
  {
    if WhiteFlagApplies(facts, cands) {
    } else if NorthAmericaApplies(main, facts) {
    } else if DialCodeApplies(main, facts) {
    } else if !CurrencyReadable(main) {
    } else if IsoCodeApplies(main) {
    } else if CapitalApplies(main) {
    } else if ContinentApplies(main) {
    } else if CurrencyApplies(catalog, main, cands) {
    }
  }

  /** Distinct rows have distinct labels, in both locales. */
  lemma LabelInjective(locale: Locale, r: Rule, q: Rule)
    ensures Label(locale, r) == Label(locale, q) ==> r == q
  {}

  /** A label returned by `GetRule` names the row whose ordering `GetOrder` returned. */
  lemma LabelNamesOrder(locale: Locale, catalog: seq<Country>, facts: Facts, main: Country, cands: seq<nat>, r: Rule)
    requires FranceIndex < |catalog| && Indexes(catalog, cands)
    requires GetRule(locale, catalog, facts, main, cands) == Value(Label(locale, r))
    ensures SelectRule(catalog, facts, main, cands) == Value(r)
    ensures GetOrder(catalog, facts, main, cands) == Value(OrderFor(r, catalog, cands))
  {
    var q := SelectRule(catalog, facts, main, cands).value;
    LabelInjective(locale, r, q);
    GetOrderFollowsRule(catalog, facts, main, cands);
  }

  /** "White Flag (Unicorn)" is returned exactly under the override condition. */
  lemma WhiteFlagLabel(locale: Locale, catalog: seq<Country>, facts: Facts, main: Country, cands: seq<nat>)
    requires FranceIndex < |catalog| && Indexes(catalog, cands)
    ensures GetRule(locale, catalog, facts, main, cands) == Value("White Flag (Unicorn)")
        <==> WhiteFlagApplies(facts, cands)
  {
    if GetRule(locale, catalog, facts, main, cands) == Value("White Flag (Unicorn)") {
      LabelInjective(locale, SelectRule(catalog, facts, main, cands).value, WhiteFlag);
    }
  }

  /** Seven copies of France come out exactly under the override condition,
      provided the candidates are seven distinct indices (as any round's are). */
  lemma WhiteFlagOverride(catalog: seq<Country>, facts: Facts, main: Country, cands: seq<nat>)
    requires FranceIndex < |catalog| && Indexes(catalog, cands)
    requires |cands| == 7 && forall i, j :: 0 <= i < j < 7 ==> cands[i] != cands[j]
    ensures GetOrder(catalog, facts, main, cands) == Value(Repeat(FranceIndex, 7))
        <==> WhiteFlagApplies(facts, cands)
  {
    GetOrderFollowsRule(catalog, facts, main, cands);
    var sel := SelectRule(catalog, facts, main, cands);
    if !WhiteFlagApplies(facts, cands) && sel.Value? {
      var sorted := SortBy(Keys(catalog, sel.value), cands);
      PermutationOfDistinctIsNotRepeat(sorted, cands, FranceIndex);
    }
  }

  lemma PermutationOfDistinctIsNotRepeat(s: seq<nat>, t: seq<nat>, x: nat)
    requires multiset(s) == multiset(t) && |t| >= 2 && t[0] != t[1]
    ensures s != Repeat(x, |s|)
  {
    assert t[0] in multiset(s) && t[1] in multiset(s);
    assert t[0] in s && t[1] in s;
  }

  /** Outside the override, the ordering of row `r` is a permutation of the
      candidates, in non-decreasing order of the row's key, and candidates with
      equal keys stay in draw order. */
  lemma RowOrderIsStableSort(r: Rule, catalog: seq<Country>, cands: seq<nat>)
    requires r != WhiteFlag && Indexes(catalog, cands)
    ensures var o := OrderFor(r, catalog, cands);
      && multiset(o) == multiset(cands)
      && Indexes(catalog, o)
      && (forall i, j :: 0 <= i < j < |o| ==> Le(RowKey(r, catalog[o[i]]), RowKey(r, catalog[o[j]])))
      && (forall k :: WithKey(Keys(catalog, r), o, k) == WithKey(Keys(catalog, r), cands, k))
  {
    var keys, o := Keys(catalog, r), OrderFor(r, catalog, cands);
    forall i | 0 <= i < |o| ensures o[i] < |catalog| {
      assert o[i] in multiset(cands);
    }
    SortBySorted(keys, cands);
    forall i, j | 0 <= i < j < |o| ensures Le(RowKey(r, catalog[o[i]]), RowKey(r, catalog[o[j]])) {
      assert KeyAt(keys, o[i]) == RowKey(r, catalog[o[i]]);
      assert KeyAt(keys, o[j]) == RowKey(r, catalog[o[j]]);
    }
    forall k ensures WithKey(keys, o, k) == WithKey(keys, cands, k) {
      SortByStable(keys, cands, k);
    }
  }

  /** Conversely, any key-ordered arrangement that keeps equal keys in draw
      order is the ordering row `r` produces. */
  lemma RowOrderIsUnique(r: Rule, catalog: seq<Country>, cands: seq<nat>, o: seq<nat>)
    requires r != WhiteFlag && Indexes(catalog, cands) && Indexes(catalog, o)
    requires forall i, j :: 0 <= i < j < |o| ==> Le(RowKey(r, catalog[o[i]]), RowKey(r, catalog[o[j]]))
    requires forall k :: WithKey(Keys(catalog, r), o, k) == WithKey(Keys(catalog, r), cands, k)
    ensures o == OrderFor(r, catalog, cands)
  {
    var keys := Keys(catalog, r);
    forall i, j | 0 <= i < j < |o| ensures Le(KeyAt(keys, o[i]), KeyAt(keys, o[j])) {
      assert Le(RowKey(r, catalog[o[i]]), RowKey(r, catalog[o[j]]));
    }
    SortByUnique(keys, cands, o);
  }

  /** With a well-formed catalog the chain never throws. */
  lemma WellFormedNeverThrows(catalog: seq<Country>, facts: Facts, m: nat, cands: seq<nat>)
    requires WellFormed(catalog) && m < |catalog| && Indexes(catalog, cands)
    ensures GetOrder(catalog, facts, catalog[m], cands).Value?
    ensures SelectRule(catalog, facts, catalog[m], cands).Value?
    ensures |cands| == 7 ==> |GetOrder(catalog, facts, catalog[m], cands).value| == 7
  {
    GetOrderFollowsRule(catalog, facts, catalog[m], cands);
  }
}
