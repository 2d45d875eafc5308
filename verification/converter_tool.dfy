/**
 The unit-selection logic of the converter widget: the pair of selected
 units, the three handlers that change it (a new source unit, a new target
 unit, a swap), the default unit picked when a change would leave the two
 selections in different categories, and the guard that decides whether a
 conversion is attempted at all.
 */
module UnitConverterTool {
  import opened UnitRegistry

  /** The two selected units: convert from `from` into `to`. */
  datatype Selection = Selection(from: UnitId, to: UnitId)

  /** The selection the widget starts with: US cups into millilitres. */
  const InitialSelection := Selection("cup_us", "milliliter")

  /** Both selections are units the registry knows. */
  predicate WellFormed(reg: Registry, s: Selection) {
    reg.Known(s.from) && reg.Known(s.to)
  }

  /** The invariant the handlers keep: the two units are convertible. */
  predicate Compatible(reg: Registry, s: Selection)
    requires WellFormed(reg, s)
  {
    reg.SameCategory(s.from, s.to)
  }

  /** The registry places the initial pair in one category. */
  predicate InitialSound(reg: Registry) {
    WellFormed(reg, InitialSelection) && Compatible(reg, InitialSelection)
  }

  // ---------------------------------------------------------------------
  // Picking a default partner unit

  /** Index of the first entry of `units` that differs from `x` (`find`). */
  function FirstIndexOther(units: seq<UnitId>, x: UnitId): (r: Option<nat>)
    ensures r.None? <==> forall j :: 0 <= j < |units| ==> units[j] == x
    ensures r.Some? ==> r.value < |units| && units[r.value] != x
    ensures r.Some? ==> forall j :: 0 <= j < r.value ==> units[j] == x
  {
    if units == [] then None
    else if units[0] != x then Some(0)
    else match FirstIndexOther(units[1..], x)
      case None => None
      case Some(i) => Some(i + 1)
  }

  /** A unit identifier counts as true in a JavaScript `||` unless it is empty. */
  predicate Truthy(u: UnitId) {
    u != ""
  }

  predicate NoEmptyIds(units: seq<UnitId>) {
    forall j :: 0 <= j < |units| ==> Truthy(units[j])
  }

  /**
   The partner picked for `x` from its category's list: the first listed
   unit other than `x`, or, failing that (or when the unit found is the
   falsy empty identifier), the list's first unit.
   */
  function DefaultUnit(units: seq<UnitId>, x: UnitId): (r: UnitId)
    requires |units| > 0
    ensures r in units
    ensures NoEmptyIds(units) ==> (r == x <==> forall j :: 0 <= j < |units| ==> units[j] == x)
    ensures NoEmptyIds(units) && r != x ==>
      exists i :: 0 <= i < |units| && units[i] == r && forall j :: 0 <= j < i ==> units[j] == x
  {
    var found := FirstIndexOther(units, x);
    if found.Some? && Truthy(units[found.value]) then units[found.value] else units[0]
  }

  /** A list holding two distinct units somewhere. */
  predicate HasTwoUnits(units: seq<UnitId>) {
    exists i, j :: 0 <= i < j < |units| && units[i] != units[j]
  }

  /** When the list holds two distinct units, the default partner is never `x` itself. */
  lemma DefaultDiffersWhenTwoUnits(units: seq<UnitId>, x: UnitId)
    requires |units| > 0 && HasTwoUnits(units) && NoEmptyIds(units)
    ensures DefaultUnit(units, x) != x
  {
  }

  // ---------------------------------------------------------------------
  // The handlers as transitions on the selection

  /** The source selector changed to `u`. */
  function AfterFromChange(reg: Registry, s: Selection, u: UnitId): (r: Selection)
    requires reg.Valid() && WellFormed(reg, s) && reg.Known(u)
    ensures r.from == u
    ensures WellFormed(reg, r) && Compatible(reg, r)
    ensures reg.SameCategory(u, s.to) ==> r.to == s.to
    ensures !reg.SameCategory(u, s.to) ==> r.to == DefaultUnit(reg.UnitsLike(u), u)
  {
    var toUnit := if reg.CategoryOf(u) != reg.CategoryOf(s.to) then DefaultUnit(reg.UnitsLike(u), u) else s.to;
    Selection(u, toUnit)
  }

  /** The target selector changed to `u`. */
  function AfterToChange(reg: Registry, s: Selection, u: UnitId): (r: Selection)
    requires reg.Valid() && WellFormed(reg, s) && reg.Known(u)
    ensures r.to == u
    ensures WellFormed(reg, r) && Compatible(reg, r)
    ensures reg.SameCategory(s.from, u) ==> r.from == s.from
    ensures !reg.SameCategory(s.from, u) ==> r.from == DefaultUnit(reg.UnitsLike(u), u)
  {
    var fromUnit := if reg.CategoryOf(s.from) != reg.CategoryOf(u) then DefaultUnit(reg.UnitsLike(u), u) else s.from;
    Selection(fromUnit, u)
  }

  /** The swap button: exchange the units when they are convertible. */
  function AfterSwap(reg: Registry, s: Selection): (r: Selection)
    requires WellFormed(reg, s)
    ensures WellFormed(reg, r)
    ensures Compatible(reg, s) ==> r.from == s.to && r.to == s.from
    ensures !Compatible(reg, s) ==> r == s
    ensures Compatible(reg, r) <==> Compatible(reg, s)
  {
    if reg.CategoryOf(s.from) == reg.CategoryOf(s.to) then Selection(s.to, s.from) else s
  }

  /** Swapping twice gives back the original pair. */
  lemma SwapTwice(reg: Registry, s: Selection)
    requires WellFormed(reg, s)
    ensures AfterSwap(reg, AfterSwap(reg, s)) == s
  {
  }

  /** Choosing the same source twice is the same as choosing it once. */
  lemma FromChangeIdempotent(reg: Registry, s: Selection, u: UnitId)
    requires reg.Valid() && WellFormed(reg, s) && reg.Known(u)
    ensures AfterFromChange(reg, AfterFromChange(reg, s, u), u) == AfterFromChange(reg, s, u)
  {
  }

  /** Choosing the same target twice is the same as choosing it once. */
  lemma ToChangeIdempotent(reg: Registry, s: Selection, u: UnitId)
    requires reg.Valid() && WellFormed(reg, s) && reg.Known(u)
    ensures AfterToChange(reg, AfterToChange(reg, s, u), u) == AfterToChange(reg, s, u)
  {
  }

  /**
   When the source moves to another category whose list holds two
   distinct units and no empty identifier, the new target differs from the source.
   */
  lemma CrossCategoryFromChangeGivesDistinctPair(reg: Registry, s: Selection, u: UnitId)
    requires reg.Valid() && WellFormed(reg, s) && reg.Known(u)
    requires !reg.SameCategory(u, s.to)
    requires HasTwoUnits(reg.UnitsLike(u))
    requires NoEmptyIds(reg.UnitsLike(u))
    ensures AfterFromChange(reg, s, u).to != u
  {
  }

  /**
   When the target moves to another category whose list holds two
   distinct units and no empty identifier, the new source differs from the target.
   */
  lemma CrossCategoryToChangeGivesDistinctPair(reg: Registry, s: Selection, u: UnitId)
    requires reg.Valid() && WellFormed(reg, s) && reg.Known(u)
    requires !reg.SameCategory(s.from, u)
    requires HasTwoUnits(reg.UnitsLike(u))
    requires NoEmptyIds(reg.UnitsLike(u))
    ensures AfterToChange(reg, s, u).from != u
  {
  }

  // ---------------------------------------------------------------------
  // Sequences of user actions

  /** One user action on the selectors. */
  datatype Event = PickFrom(unit: UnitId) | PickTo(unit: UnitId) | Swap

  predicate EventKnown(reg: Registry, e: Event) {
    match e
    case PickFrom(u) => reg.Known(u)
    case PickTo(u) => reg.Known(u)
    case Swap => true
  }

  predicate EventsKnown(reg: Registry, es: seq<Event>) {
    forall i :: 0 <= i < |es| ==> EventKnown(reg, es[i])
  }

  /**
   Dispatch of one action to its handler: the source selector, the target
   selector or the swap button.
   */
  function Step(reg: Registry, s: Selection, e: Event): (r: Selection)
    requires reg.Valid() && WellFormed(reg, s) && EventKnown(reg, e)
    ensures WellFormed(reg, r)
    ensures e.PickFrom? ==> r.from == e.unit && Compatible(reg, r)
    ensures e.PickTo? ==> r.to == e.unit && Compatible(reg, r)
    ensures e.Swap? ==> (Compatible(reg, r) <==> Compatible(reg, s))
    ensures e.Swap? && Compatible(reg, s) ==> r == Selection(s.to, s.from)
    ensures e.Swap? && !Compatible(reg, s) ==> r == s
  {
    match e
    case PickFrom(u) => AfterFromChange(reg, s, u)
    case PickTo(u) => AfterToChange(reg, s, u)
    case Swap => AfterSwap(reg, s)
  }

  /** The selection after the actions `es`, one after another. */
  function Run(reg: Registry, s: Selection, es: seq<Event>): (r: Selection)
    requires reg.Valid() && WellFormed(reg, s) && EventsKnown(reg, es)
    ensures WellFormed(reg, r)
    decreases |es|
  {
    if es == [] then s else Run(reg, Step(reg, s, es[0]), es[1..])
  }

  /** The actions after the first one are known too. */
  lemma EventsKnownTail(reg: Registry, es: seq<Event>)
    requires es != [] && EventsKnown(reg, es)
    ensures EventsKnown(reg, es[1..])
  {
  }

  /** Every action keeps a compatible selection compatible. */
  lemma StepKeepsCompatible(reg: Registry, s: Selection, e: Event)
    requires reg.Valid() && WellFormed(reg, s) && EventKnown(reg, e) && Compatible(reg, s)
    ensures Compatible(reg, Step(reg, s, e))
  {
  }

  /** Any sequence of actions keeps a compatible selection compatible. */
  lemma {:induction false} RunKeepsCompatible(reg: Registry, s: Selection, es: seq<Event>)
    requires reg.Valid() && WellFormed(reg, s) && EventsKnown(reg, es) && Compatible(reg, s)
    ensures Compatible(reg, Run(reg, s, es))
    decreases |es|
  {
    if es != [] {
      StepKeepsCompatible(reg, s, es[0]);
      EventsKnownTail(reg, es);
      RunKeepsCompatible(reg, Step(reg, s, es[0]), es[1..]);
    }
  }

  /** Every selection the widget can reach from its initial one is compatible. */
  lemma ReachableIsCompatible(reg: Registry, es: seq<Event>)
    requires reg.Valid() && InitialSound(reg) && EventsKnown(reg, es)
    ensures Compatible(reg, Run(reg, InitialSelection, es))
  {
    RunKeepsCompatible(reg, InitialSelection, es);
  }

  /**
   Once any selector has been changed, the pair is compatible, whatever
   state the widget was in before.
   */
  lemma {:induction false} CompatibleAfterAnyPick(reg: Registry, s: Selection, es: seq<Event>)
    requires reg.Valid() && WellFormed(reg, s) && EventsKnown(reg, es)
    requires exists i :: 0 <= i < |es| && !es[i].Swap?
    ensures Compatible(reg, Run(reg, s, es))
    decreases |es|
  {
    EventsKnownTail(reg, es);
    var next := Step(reg, s, es[0]);
    if !es[0].Swap? {
      assert Compatible(reg, next);
      RunKeepsCompatible(reg, next, es[1..]);
    } else {
      var i :| 0 <= i < |es| && !es[i].Swap?;
      assert 0 <= i - 1 < |es[1..]| && !es[1..][i - 1].Swap?;
      CompatibleAfterAnyPick(reg, next, es[1..]);
    }
  }

  /**
   An illustrative registry with two categories (not the application's own
   table, which is not part of this model).
   */
  const SampleRegistry := Registry(
    map["cup_us" := "volume", "milliliter" := "volume", "gram" := "mass", "kilogram" := "mass"],
    map["volume" := ["cup_us", "milliliter"], "mass" := ["gram", "kilogram"]])

  /**
   The fallback of the target handler is reachable: from the initial pair,
   picking a mass unit as the target replaces the volume source.
   */
  lemma TargetFallbackIsReachable()
    ensures SampleRegistry.Valid() && InitialSound(SampleRegistry)
    ensures !SampleRegistry.SameCategory(InitialSelection.from, "gram")
    ensures AfterToChange(SampleRegistry, InitialSelection, "gram") == Selection("kilogram", "gram")
  {
  }

  // ---------------------------------------------------------------------
  // The conversion guard

  /** What `parseFloat` makes of the amount field: not a number, or a number. */
  datatype Amount = NaN | Number(x: real)

  /**
   The memoised conversion result: nothing when the amount is not a
   number or is negative, otherwise the conversion of the amount between
   the selected units, as `convert` computes it.
   */
  function ConversionResult<R>(amount: Amount, s: Selection, convert: (real, UnitId, UnitId) -> R): (r: Option<R>)
    ensures r.None? <==> (amount.NaN? || amount.x < 0.0)
    ensures r.Some? ==> amount.Number? && amount.x >= 0.0 && r.value == convert(amount.x, s.from, s.to)
  {
    if amount.NaN? || amount.x < 0.0 then None else Some(convert(amount.x, s.from, s.to))
  }

  // ---------------------------------------------------------------------
  // The component's state

  /**
   The widget's state: the amount field (as parsed) and the two selected
   units, updated in place by the handlers.
   */
  class ConverterTool {
    const reg: Registry
    var amount: Amount
    var fromUnit: UnitId
    var toUnit: UnitId

    /** The registry is sound, both units are known and they share a category. */
    ghost predicate Valid()
      reads this
    {
      reg.Valid() && WellFormed(reg, Selected()) && Compatible(reg, Selected())
    }

    function Selected(): Selection
      reads this
    {
      Selection(fromUnit, toUnit)
    }

    /** The initial state: amount "1", one US cup into millilitres. */
    constructor (reg: Registry)
      requires reg.Valid() && InitialSound(reg)
      ensures Valid() && this.reg == reg
      ensures amount == Number(1.0) && Selected() == InitialSelection
      ensures Compatible(reg, Selected())
    {
      this.reg := reg;
      amount := Number(1.0);
      fromUnit := "cup_us";
      toUnit := "milliliter";
    }

    /** The amount field was edited. */
    method SetAmount(a: Amount)
      modifies this`amount
      ensures amount == a
    {
      amount := a;
    }

    /** The source selector changed to `u`. */
    method HandleFromUnitChange(u: UnitId)
      requires Valid() && reg.Known(u)
      modifies this`fromUnit, this`toUnit
      ensures Valid()
      ensures Selected() == AfterFromChange(reg, old(Selected()), u)
      ensures fromUnit == u && Compatible(reg, Selected())
    {
      var newFromUnit := u;
      fromUnit := newFromUnit;
      var fromCategory := reg.CategoryOf(newFromUnit);
      var toCategory := reg.CategoryOf(toUnit);
      if fromCategory != toCategory {
        var defaultTarget := DefaultUnit(reg.UnitsLike(newFromUnit), newFromUnit);
        toUnit := defaultTarget;
      }
    }

    /** The target selector changed to `u`. */
    method HandleToUnitChange(u: UnitId)
      requires Valid() && reg.Known(u)
      modifies this`fromUnit, this`toUnit
      ensures Valid()
      ensures Selected() == AfterToChange(reg, old(Selected()), u)
      ensures toUnit == u && Compatible(reg, Selected())
    {
      var newToUnit := u;
      var fromCategory := reg.CategoryOf(fromUnit);
      var toCategory := reg.CategoryOf(newToUnit);
      if fromCategory != toCategory {
        var defaultSource := DefaultUnit(reg.UnitsLike(newToUnit), newToUnit);
        fromUnit := defaultSource;
      }
      toUnit := newToUnit;
    }

    /** The swap button was pressed. */
    method HandleSwapUnits()
      requires Valid()
      modifies this`fromUnit, this`toUnit
      ensures Valid()
      ensures Selected() == AfterSwap(reg, old(Selected()))
      ensures fromUnit == old(toUnit) && toUnit == old(fromUnit)
    {
      var fromCategory := reg.CategoryOf(fromUnit);
      var toCategory := reg.CategoryOf(toUnit);
      if fromCategory == toCategory {
        fromUnit, toUnit := toUnit, fromUnit;
      }
    }

    /** The memoised conversion result for the current state. */
    function Result<R>(convert: (real, UnitId, UnitId) -> R): (r: Option<R>)
      reads this
      ensures r.None? <==> (amount.NaN? || amount.x < 0.0)
      ensures r.Some? ==> r.value == convert(amount.x, fromUnit, toUnit)
    {
      ConversionResult(amount, Selected(), convert)
    }
  }
}
