/** The count cells on the page and the count maps stored in notes. A cell
    carries its denomination id, the currency group it is laid out in, the
    `data-value` of its display and whether it is greyed out. A stored count
    is whatever JavaScript value was put there: the text of a display, or a
    number taken from a save point. */
module Cells {
  import opened Text
  import opened JsNumber
  import opened Data

  datatype CountValue = StrCount(s: string) | NumCount(n: Num)

  type Counts = map<string, CountValue>

  datatype Cell = Cell(id: string, group: Currency, value: string, disabled: bool)

  /** `String(v)`: what a display shows for a stored count. */
  function Shown(v: CountValue): string {
    match v
    case StrCount(s) => s
    case NumCount(n) => ToString(n)
  }

  /** JavaScript truthiness of a stored count. */
  predicate Truthy(v: CountValue) {
    match v
    case StrCount(s) => s != []
    case NumCount(n) => n != Finite(0.0) && n != NaN
  }

  /** `value || '0'` for a display value. */
  function OrZero(value: string): (r: string)
    ensures r != []
    ensures value != [] ==> r == value
  {
    if value == [] then "0" else value
  }

  predicate DistinctCellIds(cells: seq<Cell>) {
    forall i, j :: 0 <= i < j < |cells| ==> cells[i].id != cells[j].id
  }

  /** The body of `saveCounts`: each cell's display value, or `'0'` when it
      is empty, under the cell's id; a later cell with the same id wins. */
  function ReadCells(cells: seq<Cell>): (r: Counts)
    ensures forall id :: id in r <==> exists i :: 0 <= i < |cells| && cells[i].id == id
  {
    if cells == [] then map[]
    else
      var last := cells[|cells| - 1];
      var r := ReadCells(cells[..|cells| - 1])[last.id := StrCount(OrZero(last.value))];
      assert forall i :: 0 <= i < |cells| - 1 ==> cells[..|cells| - 1][i] == cells[i];
      r
  }

  /** With distinct ids, every cell's value is stored under its own id. */
  lemma {:induction false} ReadCellsValue(cells: seq<Cell>, i: nat)
    requires DistinctCellIds(cells) && i < |cells|
    ensures ReadCells(cells)[cells[i].id] == StrCount(OrZero(cells[i].value))
  {
    if i < |cells| - 1 {
      var init := cells[..|cells| - 1];
      assert init[i] == cells[i];
      assert DistinctCellIds(init) by {
        forall a, b | 0 <= a < b < |init| ensures init[a].id != init[b].id {
          assert init[a] == cells[a] && init[b] == cells[b];
        }
      }
      ReadCellsValue(init, i);
    }
  }

  /** With distinct ids, every cell's value is stored under its own id, for
      all cells at once. */
  lemma ReadCellsAll(cells: seq<Cell>)
    ensures DistinctCellIds(cells) ==>
      forall k :: 0 <= k < |cells| ==> ReadCells(cells)[cells[k].id] == StrCount(OrZero(cells[k].value))
  {
    if DistinctCellIds(cells) {
      forall k | 0 <= k < |cells| ensures ReadCells(cells)[cells[k].id] == StrCount(OrZero(cells[k].value)) {
        ReadCellsValue(cells, k);
      }
    }
  }

  /** Cells sharing an id also share their display value. */
  predicate ConsistentValues(cells: seq<Cell>) {
    forall i, j :: 0 <= i < |cells| && 0 <= j < |cells| && cells[i].id == cells[j].id ==> cells[i].value == cells[j].value
  }

  /** When cells sharing an id agree on their value, that value, or `'0'`,
      is stored under the id, even though a later cell overwrites an
      earlier one. */
  lemma {:induction false} ReadCellsConsistent(cells: seq<Cell>, i: nat)
    requires ConsistentValues(cells) && i < |cells|
    ensures ReadCells(cells)[cells[i].id] == StrCount(OrZero(cells[i].value))
  {
    var n := |cells| - 1;
    if cells[n].id != cells[i].id {
      var init := cells[..n];
      assert init[i] == cells[i];
      assert ConsistentValues(init) by {
        forall a, b | 0 <= a < |init| && 0 <= b < |init| && init[a].id == init[b].id
          ensures init[a].value == init[b].value
        {
          assert init[a] == cells[a] && init[b] == cells[b];
        }
      }
      ReadCellsConsistent(init, i);
    }
  }

  /** The stored counts depend only on the ids and values of the cells,
      not on their group or greying. */
  lemma {:induction false} ReadCellsSameEntries(a: seq<Cell>, b: seq<Cell>)
    requires |a| == |b| && forall i :: 0 <= i < |a| ==> a[i].id == b[i].id && a[i].value == b[i].value
    ensures ReadCells(a) == ReadCells(b)
  {
    if a != [] {
      var n := |a| - 1;
      assert forall i :: 0 <= i < n ==> a[..n][i] == a[i] && b[..n][i] == b[i];
      ReadCellsSameEntries(a[..n], b[..n]);
    }
  }

  /** The value `loadState` puts in a display: `saved[id] || '0'`. */
  function LoadValue(counts: Counts, id: string): (r: string)
    ensures r != []
  {
    if id in counts && Truthy(counts[id]) then Shown(counts[id]) else "0"
  }

  /** The value `renderCurrency` puts in a display: the stored count when
      one is defined, `'0'` otherwise. */
  function RestoreValue(counts: Counts, id: string): string {
    if id in counts then Shown(counts[id]) else "0"
  }

  /** `loadState`'s loop: every display takes its stored count. */
  function LoadCells(cells: seq<Cell>, counts: Counts): (r: seq<Cell>)
    ensures |r| == |cells|
    ensures forall i :: 0 <= i < |cells| ==> r[i] == cells[i].(value := LoadValue(counts, cells[i].id))
  {
    seq(|cells|, i requires 0 <= i < |cells| => cells[i].(value := LoadValue(counts, cells[i].id)))
  }

  /** The restore loop of `renderCurrency`. */
  function RestoreCells(cells: seq<Cell>, counts: Counts): (r: seq<Cell>)
    ensures |r| == |cells|
    ensures forall i :: 0 <= i < |cells| ==> r[i] == cells[i].(value := RestoreValue(counts, cells[i].id))
  {
    seq(|cells|, i requires 0 <= i < |cells| => cells[i].(value := RestoreValue(counts, cells[i].id)))
  }

  /** Saving the displays and loading them back changes nothing except that
      empty displays come back as `'0'`; the same holds for the render
      rule. */
  lemma SaveThenLoad(cells: seq<Cell>)
    requires DistinctCellIds(cells)
    ensures forall i :: 0 <= i < |cells| ==> LoadCells(cells, ReadCells(cells))[i].value == OrZero(cells[i].value)
    ensures forall i :: 0 <= i < |cells| ==> RestoreCells(cells, ReadCells(cells))[i].value == OrZero(cells[i].value)
  {
    forall i | 0 <= i < |cells|
      ensures LoadCells(cells, ReadCells(cells))[i].value == OrZero(cells[i].value)
      ensures RestoreCells(cells, ReadCells(cells))[i].value == OrZero(cells[i].value)
    {
      ReadCellsValue(cells, i);
    }
  }
}
