/**
 The unit registry the converter widget consumes: a closed set of unit
 identifiers, the category each one belongs to, and, per category, the
 ordered list of units shown in the selectors.

 The registry's own table (its names and conversion ratios) is not part of
 this model; only the two facts the selection logic reads are kept: the
 category of a unit and the per-category display order.
 */
module UnitRegistry {

  datatype Option<+T> = None | Some(value: T)

  /** A unit identifier such as "cup_us" or "gram". */
  type UnitId = string

  /** A category key such as the mass or the volume group. */
  type Category = string

  /**
   `category` maps every known unit to its category; `byCategory` gives,
   for each category, its units in display order.
   */
  datatype Registry = Registry(category: map<UnitId, Category>, byCategory: map<Category, seq<UnitId>>)
  {
    /** A unit the registry knows: the selectors only ever offer these. */
    predicate Known(u: UnitId) {
      u in category
    }

    function CategoryOf(u: UnitId): Category
      requires Known(u)
    {
      category[u]
    }

    /**
     What the selection logic relies on: every known unit's category has
     a list, no list is empty (the fallback reads the list's first entry)
     and every listed unit belongs to the category it is listed under.
     */
    ghost predicate Valid() {
      && (forall u :: u in category ==> category[u] in byCategory)
      && (forall c :: c in byCategory ==> |byCategory[c]| > 0)
      && (forall c, i :: c in byCategory && 0 <= i < |byCategory[c]| ==>
            byCategory[c][i] in category && category[byCategory[c][i]] == c)
    }

    /** The display-ordered units of the category of `u`. */
    function UnitsLike(u: UnitId): (units: seq<UnitId>)
      requires Valid() && Known(u)
      ensures |units| > 0
      ensures forall i :: 0 <= i < |units| ==> Known(units[i]) && CategoryOf(units[i]) == CategoryOf(u)
    {
      byCategory[category[u]]
    }

    /** Two units can be converted into each other. */
    predicate SameCategory(u: UnitId, v: UnitId)
      requires Known(u) && Known(v)
    {
      CategoryOf(u) == CategoryOf(v)
    }
  }
}
