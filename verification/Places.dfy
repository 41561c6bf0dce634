/** Mixed-radix places: how keymap layers, rows and columns become one index. */
module Places {

  /** `low` in the block number `high` of `base` entries. */
  function Place(high: nat, base: nat, low: nat): nat { high * base + low }

  lemma Scale(a: nat, b: nat, c: nat)
    ensures a <= b ==> a * c <= b * c
    ensures (a + 1) * c == a * c + c
  {
  }

  lemma PlaceBelow(high: nat, limit: nat, base: nat, low: nat)
    requires high < limit && low < base
    ensures Place(high, base, low) < Place(limit, base, 0)
    ensures Place(high, base, 0) <= Place(high, base, low) < Place(high + 1, base, 0) <= Place(limit, base, 0)
  {
    Scale(high + 1, limit, base);
    Scale(high, high, base);
  }

  lemma PlaceUnique(base: nat, high: nat, low: nat, high': nat, low': nat)
    requires low < base && low' < base && Place(high, base, low) == Place(high', base, low')
    ensures high == high' && low == low'
  {
    Scale(high + 1, high', base);
    Scale(high, high, base);
    Scale(high' + 1, high, base);
    Scale(high', high', base);
  }

  lemma PlaceSteps(high: nat, base: nat, low: nat)
    ensures Place(high, base, low + 1) == Place(high, base, low) + 1
    ensures Place(high, base, base) == Place(high + 1, base, 0)
    ensures Place(0, base, 0) == 0
  {
    Scale(high, high, base);
  }

  /** Quotient and remainder undo a place. */
  lemma PlaceDivMod(high: nat, base: nat, low: nat)
    requires low < base
    ensures Place(high, base, low) / base == high && Place(high, base, low) % base == low
  {
    var p := Place(high, base, low);
    Quotient(p, base);
    PlaceUnique(base, high, low, p / base, p % base);
  }

  lemma Quotient(p: nat, base: nat)
    requires base > 0
    ensures Place(p / base, base, p % base) == p
  {
  }

  lemma QuotientBelow(p: nat, limit: nat, base: nat)
    requires base > 0 && p < Place(limit, base, 0)
    ensures p / base < limit
  {
    Quotient(p, base);
    Scale(limit, p / base, base);
  }

  /** Layers of rows of columns, or layers of `rows * columns` positions: one index. */
  lemma SameCell(layer: nat, rows: nat, row: nat, columns: nat, column: nat)
    ensures Place(Place(layer, rows, row), columns, column)
            == Place(layer, Place(rows, columns, 0), Place(row, columns, column))
  {
    assert (layer * rows + row) * columns == layer * rows * columns + row * columns;
    assert layer * rows * columns == layer * (rows * columns);
  }
}
