# Recipe unit converter: the unit-selection state machine

This project models the unit-selection logic of the recipe unit converter widget
(`components/UnitConverterTool.tsx`). The widget holds an amount and a pair of
selected units, a source (`fromUnit`) and a target (`toUnit`). Three handlers change the pair:

- choosing a new source unit. If the current target is now in another category,
  the target is replaced by a default unit of the source's category;
- choosing a new target unit. If the source is in another category, the source
  is replaced by a default unit of the target's category;
- the swap button. It exchanges the two units, but only when they share a category.

The default unit is picked as `list.find(u => u !== x) || list[0]` over the category's
display-ordered list. So it is the first listed unit other than `x`, and the first
listed unit if no other exists.

The unit registry is kept abstract in module `UnitRegistry`. It records which units
exist, each unit's category, and each category's ordered list of units. `Registry.Valid()`
states what the handlers rely on:
- every known unit's category has a list;
- no list is empty;
- every listed unit belongs to the category it is listed under.

Module `UnitConverterTool` holds the rest:
- the handlers as pure transitions on a `Selection`;
- the class `ConverterTool`, whose methods update `fromUnit` and `toUnit` in place.
  Each method's postcondition equates the new selection with the corresponding transition.
  The class invariant `Valid()` includes "the two units share a category". The constructor
  establishes it, and every handler keeps it. The pure `AfterSwap` still models the source's
  guard for a mixed pair;
- lemmas about the transitions: swap is an involution, a repeated choice is idempotent,
  and the "same category" invariant holds along any sequence of user actions;
- the guard of the memoised conversion result.

The comment at `UnitConverterTool.tsx:73-74` says the fallback in the target handler
"should ideally not happen". The model shows that it does happen: `AfterToChange` replaces
the source whenever the user picks a target from another category's group in the selector.
Both selectors offer every category's group of units (`UnitConverterTool.tsx:24-31`).
`TargetFallbackIsReachable` shows it on a sample two-category registry. It does not break
the invariant, which is kept by both handlers.

## Model

| member | source | states |
|---|---|---|
| `UnitConverterTool.FirstIndexOther` | components/UnitConverterTool.tsx:62 | The `find` search: there is no result exactly when every entry equals `x`. Otherwise the result is an index whose entry differs from `x` and all earlier entries equal `x`, so it is the first such entry. |
| `UnitConverterTool.DefaultUnit` | components/UnitConverterTool.tsx:62 | The default partner is always a unit of the list. With non-empty identifiers, it equals `x` exactly when every listed unit is `x`. Otherwise it is the first listed unit that differs from `x`. |
| `UnitRegistry.Registry.UnitsLike` | components/UnitConverterTool.tsx:62 | The list looked up as the category list of a unit's category. Under a sound registry it is non-empty, and every unit in it is known and shares that unit's category. |
| `UnitConverterTool.DefaultDiffersWhenTwoUnits` | components/UnitConverterTool.tsx:62 | A list that holds two distinct units anywhere, and no empty identifier, yields a default different from `x`. |
| `UnitConverterTool.AfterFromChange` | components/UnitConverterTool.tsx:54-65 | The new source is `u` and the pair ends up in one category, whatever the prior state. The target is kept when it already shares `u`'s category, and is otherwise the default partner of `u`. |
| `UnitConverterTool.AfterToChange` | components/UnitConverterTool.tsx:67-79 | The new target is `u` and the pair ends up in one category. The source is kept when it already shares `u`'s category, and is otherwise the default partner of `u`. |
| `UnitConverterTool.AfterSwap` | components/UnitConverterTool.tsx:81-88 | A same-category pair is exchanged. A mixed pair is left unchanged. Compatibility holds after the swap exactly when it held before. |
| `UnitConverterTool.SwapTwice` | components/UnitConverterTool.tsx:84-87 | Swapping twice returns the original pair, from every state. |
| `UnitConverterTool.FromChangeIdempotent` | components/UnitConverterTool.tsx:54-65 | Choosing the same source unit twice has the same effect as choosing it once. |
| `UnitConverterTool.ToChangeIdempotent` | components/UnitConverterTool.tsx:67-79 | Choosing the same target unit twice has the same effect as choosing it once. |
| `UnitConverterTool.CrossCategoryFromChangeGivesDistinctPair` | components/UnitConverterTool.tsx:61-63 | Moving the source to another category whose list holds two distinct units never selects the same unit on both sides. |
| `UnitConverterTool.CrossCategoryToChangeGivesDistinctPair` | components/UnitConverterTool.tsx:72-76 | Moving the target to another category whose list holds two distinct units never selects the same unit on both sides. |
| `UnitConverterTool.Step` | components/UnitConverterTool.tsx:106-110 | How the two selectors and the swap button are wired to their handlers. A source pick sets the source, and a target pick sets the target. Both leave the pair compatible. A swap exchanges a compatible pair and leaves a mixed one as it was. |
| `UnitConverterTool.TargetFallbackIsReachable` | components/UnitConverterTool.tsx:72-76 | On a sound two-category registry, picking `gram` as the target from the initial pair crosses categories. The source is then replaced by `kilogram`, the first mass unit other than `gram`. |
| `UnitConverterTool.StepKeepsCompatible` | components/UnitConverterTool.tsx:54-88 | Every user action (new source, new target, swap) keeps a same-category pair in one category. |
| `UnitConverterTool.RunKeepsCompatible` | components/UnitConverterTool.tsx:73-74 | The invariant named in the comment: after any sequence of actions, a same-category pair is still in one category. |
| `UnitConverterTool.ReachableIsCompatible` | components/UnitConverterTool.tsx:45-46 | Every pair reachable from the initial `cup_us`/`milliliter` selection is in one category, given that the registry puts those two units in one category. |
| `UnitConverterTool.CompatibleAfterAnyPick` | components/UnitConverterTool.tsx:54-79 | From any state, even a mixed one, the pair is in one category once the sequence of actions contains a selector change. |
| `UnitConverterTool.ConversionResult` | components/UnitConverterTool.tsx:48-52 | No conversion is attempted exactly when the amount is not a number or is negative. Otherwise the result is the conversion of that amount between the selected units. |
| `UnitConverterTool.ConverterTool.constructor` | components/UnitConverterTool.tsx:44-46 | The initial state: amount 1 and the pair `cup_us` into `milliliter`, which is compatible under the registry assumption. |
| `UnitConverterTool.ConverterTool.Result` | components/UnitConverterTool.tsx:48-52 | The memoised result for the component's own state. There is none exactly when the stored amount is not a number or is negative. Otherwise it is the conversion of that amount from `fromUnit` into `toUnit`. |
| `UnitConverterTool.ConverterTool.SetAmount` | components/UnitConverterTool.tsx:99 | Editing the amount field replaces the amount and nothing else. |
| `UnitConverterTool.ConverterTool.HandleFromUnitChange` | components/UnitConverterTool.tsx:54-65 | The in-place handler. The new pair is `AfterFromChange` of the old one, so the source is `u` and the pair is compatible. The amount is untouched. |
| `UnitConverterTool.ConverterTool.HandleToUnitChange` | components/UnitConverterTool.tsx:67-79 | The in-place handler. The new pair is `AfterToChange` of the old one, so the target is `u` and the pair is compatible. The amount is untouched. |
| `UnitConverterTool.ConverterTool.HandleSwapUnits` | components/UnitConverterTool.tsx:81-88 | The in-place handler. The new pair is `AfterSwap` of the old one. Because the class invariant keeps the pair compatible, the two units are exchanged. The amount is untouched. |

## Left out

- The conversion arithmetic (`convertUnits` in `lib/ConversionLogic`) and the unit table with names and ratios (`lib/UnitRatios`) are not part of this model. The conversion is a function parameter of `ConversionResult`. The registry is abstract, and the fact that it puts `cup_us` and `milliliter` in one category is a hypothesis (`InitialSound`).
- `parseFloat` is not modelled. The amount is stored as what it yields: `NaN`, or a number. Infinities and negative zero are not distinguished from other numbers.
- The display code is not modelled: number formatting (`toLocaleString`, `toPrecision`), the pluralisation of unit names, and the "Invalid Conversion" panel. The same goes for the `UnitSelector` rendering. The selector offers only registry units, which becomes the precondition that a chosen unit is known.
- React scheduling is not modelled: state batching, memo and callback dependency arrays. Each handler is one atomic transition on the current state.
- The other components (page layout with its random animation, modal dialogs, the static article, the app shell) carry no selection logic and are not modelled.
