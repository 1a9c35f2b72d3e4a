/** The module's round state and its button handlers: `Start`, `OnLeft`,
    `OnRight`, `OnSubmit` of `FlagsModule` (`onLeft`, `onRight`, `onSubmit` of
    `FlagsModulePL`, which are the same code). */
module Flags {
  import opened Catalog
  import opened RuleEngine
  import Cursor
  import Draw

  /** What a submission reports to the bomb: nothing (the module is already
      solved), `HandlePass` or `HandleStrike`. */
  datatype Verdict = NoVerdict | Solved | Strike

  /** What a press of submit reports, given whether the module still accepts
      input and whether the highlighted candidate is the expected one. */
  function SubmitVerdict(live: bool, correct: bool): (v: Verdict)
    ensures v == NoVerdict <==> !live
    ensures v == Solved <==> live && correct
    ensures v == Strike <==> live && !correct
  {
    if !live then NoVerdict else if correct then Solved else Strike
  }

  /** The round `Start` draws: eight distinct indices into the pool, an order
      of seven entries and a target in [1, 7]. */
  ghost predicate Round(catalog: seq<Country>, main: nat, countries: seq<nat>, order: seq<nat>, number: int) {
    && WellFormed(catalog)
    && main < PoolSize
    && |countries| == Cursor.Slots
    && (forall i :: 0 <= i < Cursor.Slots ==> countries[i] < PoolSize && countries[i] != main)
    && (forall i, j :: 0 <= i < j < Cursor.Slots ==> countries[i] != countries[j])
    && |order| == Cursor.Slots
    && 1 <= number <= Cursor.Slots
  }

  class FlagsModule {
    /** The deserialised JSON asset (`countryInfo` / `PanstwaInfo`). */
    const catalog: seq<Country>
    /** The `KMBombInfo` answers the rule chain reads. */
    const facts: Facts

    var number: int
    var position: int
    var canInteract: bool
    var order: seq<nat>
    var mainCountry: nat
    var countries: seq<nat>
    var numbers: seq<nat>

    /** The field initialisers, with the catalog the asset provides. */
    constructor (catalog: seq<Country>, facts: Facts)
      requires WellFormed(catalog)
      ensures this.catalog == catalog && this.facts == facts
      ensures Unstarted()
    {
      this.catalog := catalog;
      this.facts := facts;
      number := 0;
      position := 0;
      canInteract := true;
      order := [];
      mainCountry := 0;
      countries := [];
      numbers := Range(PoolSize);
    }

    /** The state before `Start`. */
    ghost predicate Unstarted()
      reads this
    {
      WellFormed(catalog) && position == 0 && canInteract && countries == [] && numbers == Range(PoolSize)
    }

    /** The round after `Start` with the cursor in [0, 6]. */
    ghost predicate Valid()
      reads this
    {
      Round(catalog, mainCountry, countries, order, number) && 0 <= position < Cursor.Slots
    }

    /** `order` is what the rule chain computes for the drawn countries. It
        reads only fields the buttons never write, so every button keeps it. */
    ghost predicate OrderFollowsRules()
      reads this`mainCountry, this`countries, this`order
    {
      && WellFormed(catalog) && mainCountry < PoolSize && Indexes(catalog, countries)
      && GetOrder(catalog, facts, catalog[mainCountry], countries) == Value(order)
    }

    /** `countries[p] == order[number - 1]`: the candidate at `p` is the expected answer. */
    predicate IsAnswer(p: int)
      reads this
      requires Valid() && 0 <= p < Cursor.Slots
    {
      countries[p] == order[number - 1]
    }

    /** Draws the main country and the seven candidates without replacement,
        computes the order, and picks the target number. Each `Random.Range`
        is a nondeterministic choice within its bounds. */
    method Start()
      requires Unstarted()
      modifies this
      ensures Valid() && OrderFollowsRules()
      ensures position == 0 && canInteract
      ensures |numbers| == PoolSize - 8 && Draw.Increasing(numbers)
      ensures forall x: nat :: x in numbers <==> x < PoolSize && x != mainCountry && x !in countries
    {
      assert forall x: nat :: x in numbers <==> x < PoolSize by {
        forall x: nat | x < PoolSize ensures x in numbers {
          assert numbers[x] == x;
        }
      }
      var k :| 0 <= k < |numbers|;
      var main := numbers[k];
      Draw.RemoveFromIncreasing(numbers, main);
      mainCountry := main;
      numbers := Draw.Remove(numbers, main);

      DrawCandidates();

      WellFormedNeverThrows(catalog, facts, main, countries);
      order := GetOrder(catalog, facts, catalog[main], countries).value;
      var n :| 1 <= n <= 7;
      number := n;
    }

    /** The loop of `Start` that draws the seven candidates from what is left
        of `numbers`, each `Random.Range` a nondeterministic choice. */
    method DrawCandidates()
      requires countries == [] && mainCountry < PoolSize
      requires Draw.Increasing(numbers) && |numbers| == PoolSize - 1
      requires forall x: nat :: x in numbers <==> x < PoolSize && x != mainCountry
      modifies this`countries, this`numbers
      ensures |countries| == Cursor.Slots
      ensures Draw.Increasing(numbers) && |numbers| == PoolSize - 8
      ensures forall x: nat :: x in numbers <==> x < PoolSize && x != mainCountry && x !in countries
      ensures forall a :: 0 <= a < Cursor.Slots ==> countries[a] < PoolSize && countries[a] != mainCountry
      ensures forall a, b :: 0 <= a < b < Cursor.Slots ==> countries[a] != countries[b]
    {
      var i := 0;
      while i < 7
        invariant 0 <= i <= 7 && |countries| == i
        invariant Draw.Increasing(numbers) && |numbers| == PoolSize - 1 - i
        invariant forall x: nat :: x in numbers <==> x < PoolSize && x != mainCountry && x !in countries
        invariant forall a :: 0 <= a < i ==> countries[a] < PoolSize && countries[a] != mainCountry
        invariant forall a, b :: 0 <= a < b < i ==> countries[a] != countries[b]
      {
        var j :| 0 <= j < |numbers|;
        var id := numbers[j];
        Draw.RemoveFromIncreasing(numbers, id);
        countries := countries + [id];
        numbers := Draw.Remove(numbers, id);
        i := i + 1;
      }
    }

    /** The left button: one step left unless the module is solved. */
    method OnLeft()
      requires Valid()
      modifies this`position
      ensures Valid()
      ensures position == if canInteract then Cursor.StepLeft(old(position)) else old(position)
    {
      if !canInteract {
        return;
      }
      position := if position == 0 then 6 else position - 1;
    }

    /** The right button: one step right unless the module is solved. */
    method OnRight()
      requires Valid()
      modifies this`position
      ensures Valid()
      ensures position == if canInteract then Cursor.StepRight(old(position)) else old(position)
    {
      if !canInteract {
        return;
      }
      position := if position == 6 then 0 else position + 1;
    }

    /** The submit button: solves the module when the highlighted candidate is
        the expected one, strikes otherwise; does nothing once solved. */
    method OnSubmit() returns (verdict: Verdict)
      requires Valid()
      modifies this`canInteract
      ensures Valid()
      ensures position == old(position)
      ensures verdict == SubmitVerdict(old(canInteract), IsAnswer(position))
      ensures canInteract == (old(canInteract) && !IsAnswer(position))
    {
      if !canInteract {
        return NoVerdict;
      }
      var correct := countries[position] == order[number - 1];
      if correct {
        canInteract := false;
        return Solved;
      }
      return Strike;
    }
  }
}
