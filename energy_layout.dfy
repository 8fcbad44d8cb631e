/**
 * The index arithmetic of the energy chart layout
 * (src/assets/scripts/energy-chart/layout.js): labels cut to 10 characters,
 * items laid out row by row in `totalColumns` columns, and the row count the
 * chart height is sized for. Pixel sizes and radius scales are not modelled.
 */
module EnergyLayout {
  import opened Division

  /** The longest label kept whole. */
  const MaxLabel := 10

  /**
   * `getTruncatedLabel(text)`: text of at most 10 characters as it is,
   * otherwise its first 10 characters and an ellipsis.
   */
  function TruncatedLabel(text: string): (r: string)
    ensures |r| <= MaxLabel + 1
    ensures |text| <= MaxLabel ==> r == text
    ensures |text| > MaxLabel ==> |r| == MaxLabel + 1 && r[..MaxLabel] == text[..MaxLabel] && r[MaxLabel] == '…'
  {
    if |text| <= MaxLabel then text else text[..MaxLabel] + "…"
  }

  /**
   * A label is left as it is exactly when it is short, or is already 10
   * characters and an ellipsis.
   */
  lemma TruncatedLabelFixedPoints(text: string)
    ensures TruncatedLabel(text) == text <==> |text| <= MaxLabel || (|text| == MaxLabel + 1 && text[MaxLabel] == '…')
  {
    if |text| == MaxLabel + 1 && text[MaxLabel] == '…' {
      assert text == text[..MaxLabel] + "…";
    }
  }

  /** Truncating twice is truncating once. */
  lemma TruncatedLabelIdempotent(text: string)
    ensures TruncatedLabel(TruncatedLabel(text)) == TruncatedLabel(text)
  {
    TruncatedLabelFixedPoints(TruncatedLabel(text));
  }

  /** Where item `i` goes: column `i % totalColumns` of row `Math.floor(i / totalColumns)`. */
  datatype Position = Position(column: int, row: int)

  function PositionOf(i: nat, totalColumns: int): (p: Position)
    requires totalColumns > 0
    ensures 0 <= p.column < totalColumns && 0 <= p.row
    ensures p.row * totalColumns + p.column == i
  {
    Position(i % totalColumns, i / totalColumns)
  }

  /** Two items never share a cell. */
  lemma PositionsDistinct(i: nat, j: nat, totalColumns: int)
    requires totalColumns > 0 && i != j
    ensures PositionOf(i, totalColumns) != PositionOf(j, totalColumns)
  {
  }

  /** One layout entry: the item's cell and its label (`item.labelText`). */
  datatype Item = Item(position: Position, labelText: string)

  /**
   * `data.map((d, i) => ...)`, keeping the cell and label of each datum, by
   * its name: no two items share a cell, and every item lies in one of the
   * rows the height is sized for.
   */
  function Layout(names: seq<string>, totalColumns: int): (items: seq<Item>)
    requires totalColumns > 0
    ensures |items| == |names|
    ensures forall i :: 0 <= i < |names| ==>
      items[i] == Item(PositionOf(i, totalColumns), TruncatedLabel(names[i]))
    ensures forall i, j :: 0 <= i < j < |names| ==> items[i].position != items[j].position
    ensures forall i :: 0 <= i < |names| ==> items[i].position.row < RowCount(|names|, totalColumns)
  {
    LayoutCells(|names|, totalColumns);
    seq(|names|, i requires 0 <= i < |names| => Item(PositionOf(i, totalColumns), TruncatedLabel(names[i])))
  }

  lemma LayoutCells(n: nat, totalColumns: int)
    requires totalColumns > 0
    ensures forall i, j :: 0 <= i < j < n ==> PositionOf(i, totalColumns) != PositionOf(j, totalColumns)
    ensures forall i :: 0 <= i < n ==> PositionOf(i, totalColumns).row < RowCount(n, totalColumns)
  {
    forall i, j | 0 <= i < j < n ensures PositionOf(i, totalColumns) != PositionOf(j, totalColumns) {
      PositionsDistinct(i, j, totalColumns);
    }
    forall i | 0 <= i < n ensures PositionOf(i, totalColumns).row < RowCount(n, totalColumns) {
      RowCountCoversItems(n, totalColumns, i);
    }
  }

  /** `Math.floor(Object.keys(layout).length / totalColumns) + 1`: the rows the height is sized for. */
  function RowCount(n: nat, totalColumns: int): int
    requires totalColumns > 0
  {
    n / totalColumns + 1
  }

  /** Every item's row is below the row count, so the chart is tall enough for all of them. */
  lemma RowCountCoversItems(n: nat, totalColumns: int, i: nat)
    requires totalColumns > 0 && i < n
    ensures PositionOf(i, totalColumns).row < RowCount(n, totalColumns)
  {
    DivMonotone(i, n, totalColumns);
  }

  /**
   * When the items fill their last row exactly, the row count has one row
   * more than the items use: no item sits in its last row.
   */
  lemma RowCountSpareRow(n: nat, totalColumns: int)
    requires totalColumns > 0 && n > 0 && n % totalColumns == 0
    ensures forall i: nat :: i < n ==> PositionOf(i, totalColumns).row < RowCount(n, totalColumns) - 1
  {
    forall i: nat | i < n
      ensures PositionOf(i, totalColumns).row < RowCount(n, totalColumns) - 1
    {
      DivMonotone(i, n - 1, totalColumns);
      DivUnique(n - 1, totalColumns, n / totalColumns - 1, totalColumns - 1);
    }
  }
}
