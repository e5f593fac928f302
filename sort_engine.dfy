/**
 * The state of the Passmark chart sorter and its event handlers: the active
 * column and order that the arrow clicks drive, the arrow colours of the
 * headers, the original row order captured once per table, and `sortTable`,
 * which reorders the rows of the active chart list.
 */
module SortEngine {
  import opened Wrappers
  import opened JsBuiltins
  import opened TableSort

  /* ------------------------------------------------------------ chart list */

  /** The elements of `xs` that do not occur in `ys`, in order. */
  function Minus<T(==)>(xs: seq<T>, ys: seq<T>): seq<T> {
    if xs == [] then []
    else (if xs[0] in ys then [] else [xs[0]]) + Minus(xs[1..], ys)
  }

  /** What `Minus` keeps comes from `xs` and is not in `ys`. */
  lemma {:induction false} MinusMembers<T>(xs: seq<T>, ys: seq<T>)
    ensures forall x :: x in Minus(xs, ys) ==> x in xs && x !in ys
  {
    if xs != [] {
      MinusMembers(xs[1..], ys);
    }
  }

  /** The list after `appendChild` is called with each of `rows` in turn. */
  function Appended<T(==)>(items: seq<T>, rows: seq<T>): seq<T> {
    if rows == [] then items
    else
      var n := |rows| - 1;
      Minus(Appended(items, rows[..n]), [rows[n]]) + [rows[n]]
  }

  lemma {:induction false} MinusConcat<T>(a: seq<T>, b: seq<T>, ys: seq<T>)
    ensures Minus(a + b, ys) == Minus(a, ys) + Minus(b, ys)
  {
    if a == [] {
      assert a + b == b;
    } else {
      assert (a + b)[0] == a[0] && (a + b)[1..] == a[1..] + b;
      MinusConcat(a[1..], b, ys);
    }
  }

  lemma {:induction false} MinusSnoc<T>(xs: seq<T>, ys: seq<T>, y: T)
    ensures Minus(Minus(xs, ys), [y]) == Minus(xs, ys + [y])
  {
    if xs != [] {
      MinusSnoc(xs[1..], ys, y);
      MinusConcat(if xs[0] in ys then [] else [xs[0]], Minus(xs[1..], ys), [y]);
    }
  }

  lemma {:induction false} MinusDisjoint<T>(xs: seq<T>, ys: seq<T>)
    requires forall i :: 0 <= i < |xs| ==> xs[i] !in ys
    ensures Minus(xs, ys) == xs
  {
    if xs != [] {
      MinusDisjoint(xs[1..], ys);
    }
  }

  lemma {:induction false} MinusCovered<T>(xs: seq<T>, ys: seq<T>)
    requires forall i :: 0 <= i < |xs| ==> xs[i] in ys
    ensures Minus(xs, ys) == []
  {
    if xs != [] {
      MinusCovered(xs[1..], ys);
    }
  }

  /** Appending rows that are all different moves exactly them, in order, to the end. */
  lemma {:induction false} AppendedDistinct<T>(items: seq<T>, rows: seq<T>)
    requires Distinct(rows)
    ensures Appended(items, rows) == Minus(items, rows) + rows
  {
    if rows == [] {
      MinusDisjoint(items, rows);
    } else {
      var n := |rows| - 1;
      var init := rows[..n];
      var y := rows[n];
      assert rows == init + [y];
      assert y !in init by {
        forall i | 0 <= i < n ensures init[i] != y {
          assert rows[i] == init[i];
        }
      }
      assert Distinct(init) by {
        forall i, j | 0 <= i < j < n ensures init[i] != init[j] {
          assert rows[i] == init[i] && rows[j] == init[j];
        }
      }
      AppendedDistinct(items, init);
      var prev := Minus(items, init) + init;
      assert Appended(items, rows) == Minus(prev, [y]) + [y];
      MinusConcat(Minus(items, init), init, [y]);
      MinusSnoc(items, init, y);
      MinusDisjoint(init, [y]);
      assert Minus(prev, [y]) == Minus(items, rows) + init;
    }
  }

  /** Both halves of a sequence without repetitions are without repetitions, and share no element. */
  lemma DistinctHalves<T>(first: seq<T>, second: seq<T>)
    requires Distinct(first + second)
    ensures Distinct(first) && Distinct(second)
    ensures forall i :: 0 <= i < |first| ==> first[i] !in second
  {
    var both := first + second;
    forall i, j | 0 <= i < j < |first| ensures first[i] != first[j] {
      assert both[i] == first[i] && both[j] == first[j];
    }
    forall i, j | 0 <= i < j < |second| ensures second[i] != second[j] {
      assert both[|first| + i] == second[i] && both[|first| + j] == second[j];
    }
    forall i, j | 0 <= i < |first| && 0 <= j < |second| ensures first[i] != second[j] {
      assert both[i] == first[i] && both[|first| + j] == second[j];
    }
  }

  /**
   * Appending a permutation of the list's rows, in two batches, leaves the
   * list as the two batches one after the other.
   */
  lemma AppendPermutation<T>(items: seq<T>, first: seq<T>, second: seq<T>)
    requires Distinct(items) && multiset(first + second) == multiset(items)
    ensures Appended(Appended(items, first), second) == first + second
  {
    DistinctPermutation(items, first + second);
    DistinctHalves(first, second);
    LeftoversInSecond(items, first, second);
    AppendBatches(items, first, second);
  }

  lemma AppendBatches<T>(items: seq<T>, first: seq<T>, second: seq<T>)
    requires Distinct(first) && Distinct(second)
    requires forall i, j :: 0 <= i < |first| && 0 <= j < |second| ==> first[i] != second[j]
    requires forall i :: 0 <= i < |Minus(items, first)| ==> Minus(items, first)[i] in second
    ensures Appended(Appended(items, first), second) == first + second
  {
    AppendedDistinct(items, first);
    AppendOnto(Minus(items, first), first, second);
  }

  /** Appending `second` to `rest + first`, where `second` covers `rest` and avoids `first`. */
  lemma AppendOnto<T>(rest: seq<T>, first: seq<T>, second: seq<T>)
    requires Distinct(second)
    requires forall i, j :: 0 <= i < |first| && 0 <= j < |second| ==> first[i] != second[j]
    requires forall i :: 0 <= i < |rest| ==> rest[i] in second
    ensures Appended(rest + first, second) == first + second
  {
    AppendedDistinct(rest + first, second);
    MinusConcat(rest, first, second);
    MinusDisjoint(first, second);
    MinusCovered(rest, second);
    assert [] + first == first;
  }

  /** What is left of the list after removing `first` lies in `second`. */
  lemma LeftoversInSecond<T>(items: seq<T>, first: seq<T>, second: seq<T>)
    requires multiset(first + second) == multiset(items)
    ensures forall i :: 0 <= i < |Minus(items, first)| ==> Minus(items, first)[i] in second
  {
    var rest := Minus(items, first);
    MinusMembers(items, first);
    forall i | 0 <= i < |rest| ensures rest[i] in second {
      assert rest[i] in items && rest[i] !in first;
      assert rest[i] in multiset(first + second);
    }
  }

  /** The `ul.chartlist` of the active table. */
  class ChartList {
    var items: seq<Row>

    /** A DOM list holds each node once. */
    ghost predicate Valid()
      reads this
    {
      Distinct(items)
    }

    constructor(items: seq<Row>)
      requires Distinct(items)
      ensures this.items == items && Valid()
    {
      this.items := items;
    }

    /** `appendChild` on a row: the row moves to the end of the list. */
    method AppendChild(row: Row)
      modifies this
      ensures items == Minus(old(items), [row]) + [row]
    {
      items := Minus(items, [row]) + [row];
    }

    /** `rows.forEach(row => unorderedList.appendChild(row))` */
    method AppendAll(rows: seq<Row>)
      modifies this
      ensures items == Appended(old(items), rows)
    {
      for i := 0 to |rows|
        invariant items == Appended(old(items), rows[..i])
      {
        assert rows[..i + 1][..i] == rows[..i];
        AppendChild(rows[i]);
      }
      assert rows[..|rows|] == rows;
    }
  }

  /* ------------------------------------------------------ click transitions */

  /** The active column and order. */
  datatype SortState = SortState(column: Option<nat>, order: Order)

  /**
   * An arrow click on header `headerIndex`: the arrow of the active
   * direction on the active column resets the order to none; any other
   * click makes that header the column and the arrow's direction the order.
   */
  function AfterClick(st: SortState, headerIndex: nat, arrow: Order): SortState {
    if st.column == Some(headerIndex) && st.order == arrow then SortState(st.column, Unsorted)
    else SortState(Some(headerIndex), arrow)
  }

  /**
   * Repeated clicks on one arrow alternate between its direction and no
   * order, always on that header's column.
   */
  lemma SameArrowAlternates(st: SortState, headerIndex: nat, arrow: Order)
    requires arrow != Unsorted
    ensures var once := AfterClick(st, headerIndex, arrow);
      var twice := AfterClick(once, headerIndex, arrow);
      && once.column == Some(headerIndex) && twice.column == Some(headerIndex)
      && (once.order == Unsorted <==> twice.order == arrow)
      && once.order in {arrow, Unsorted} && twice.order in {arrow, Unsorted}
  {
  }

  /** A click sorts by the arrow's direction unless that direction was already active on the header. */
  lemma ClickSortsUnlessActive(st: SortState, headerIndex: nat, arrow: Order)
    requires arrow != Unsorted
    ensures AfterClick(st, headerIndex, arrow).order == Unsorted <==> st == SortState(Some(headerIndex), arrow)
  {
  }

  /* ------------------------------------------------------------ indicators */

  datatype Color = Black | Green | Red

  /** The colours of a header's up and down arrows. */
  datatype Indicator = Indicator(up: Color, down: Color)

  /** The colours `updateHeaderIndicators` gives header `index`. */
  function IndicatorFor(index: nat, columnIndex: nat, order: Order): Indicator {
    if index == columnIndex then
      match order
      case Asc => Indicator(Green, Black)
      case Desc => Indicator(Black, Red)
      case Unsorted => Indicator(Black, Black)
    else Indicator(Black, Black)
  }

  /**
   * The arrows show the state: an up arrow is green exactly on the sorted
   * column in ascending order, a down arrow red exactly in descending
   * order, and every other arrow is black.
   */
  lemma IndicatorsShowState(index: nat, columnIndex: nat, order: Order)
    ensures IndicatorFor(index, columnIndex, order).up == Green <==> index == columnIndex && order == Asc
    ensures IndicatorFor(index, columnIndex, order).down == Red <==> index == columnIndex && order == Desc
    ensures IndicatorFor(index, columnIndex, order).up != Red && IndicatorFor(index, columnIndex, order).down != Green
  {
  }

  /* ---------------------------------------------------------------- engine */

  datatype SortOutcome =
    | TableNotFound          // the active table is not on the page
    | OriginalOrderMissing   // no order was captured for the table: `indexOf` on undefined throws
    | Reordered

  /** The comparator `sortTable` sorts the linked rows with. */
  function RowOrder(order: Order, columnIndex: nat, captured: seq<Row>, collate: (string, string) -> int): (Row, Row) -> real {
    if order == Unsorted then ByPosition(captured) else ByColumn(columnIndex, order, collate)
  }

  class Engine {
    var column: Option<nat>
    var order: Order
    /** The id of the visible table container; None until one is found. */
    var tableId: Option<string>
    /** The row order captured for each table id. */
    var originalOrders: map<string, seq<Row>>

    constructor()
      ensures column == None && order == Unsorted && tableId == None && originalOrders == map[]
    {
      column := None;
      order := Unsorted;
      tableId := None;
      originalOrders := map[];
    }

    /** The order captured for the active table, if any. */
    function Captured(): Option<seq<Row>>
      reads this
    {
      if tableId.Some? && tableId.value in originalOrders then Some(originalOrders[tableId.value]) else None
    }

    /**
     * The unsorted state needs the captured order, but `sort` only calls the
     * comparator when there are two rows or more to order.
     */
    predicate MissesOrder(rows: seq<Row>)
      reads this
    {
      order == Unsorted && Captured().None? && |Filter(rows, HasLink)| >= 2
    }

    /**
     * What `sortTable(columnIndex)` leaves, from the list's rows `before`:
     * each header shows the state's colours; the list keeps its rows when the
     * needed original order is missing, and otherwise holds the linked rows
     * sorted by the state's comparator followed by the unlinked rows.
     */
    ghost predicate SortedAs(outcome: SortOutcome, list: ChartList, before: seq<Row>, headers: array<Indicator>,
                             columnIndex: nat, collate: (string, string) -> int)
      reads this, list, headers
    {
      && list.Valid()
      && (forall i :: 0 <= i < headers.Length ==> headers[i] == IndicatorFor(i, columnIndex, order))
      && (if MissesOrder(before) then outcome == OriginalOrderMissing && list.items == before
          else outcome == Reordered && list.items == Arranged(before, RowOrder(order, columnIndex, Captured().GetOr([]), collate)))
    }

    /** `updateHeaderIndicators(columnIndex)` */
    method UpdateHeaderIndicators(columnIndex: nat, headers: array<Indicator>)
      modifies headers
      ensures forall i :: 0 <= i < headers.Length ==> headers[i] == IndicatorFor(i, columnIndex, order)
    {
      for i := 0 to headers.Length
        invariant forall k :: 0 <= k < i ==> headers[k] == IndicatorFor(k, columnIndex, order)
      {
        if i == columnIndex {
          if order == Asc {
            headers[i] := Indicator(Green, Black);
          } else if order == Desc {
            headers[i] := Indicator(Black, Red);
          } else {
            headers[i] := Indicator(Black, Black);
          }
        } else {
          headers[i] := Indicator(Black, Black);
        }
      }
    }

    /**
     * `sortTable(columnIndex)` on the active table's list (null when the
     * table is not on the page): the header arrows take the state's colours,
     * the linked rows are sorted and re-appended, then the unlinked ones.
     */
    method SortTable(columnIndex: nat, list: ChartList?, headers: array<Indicator>, collate: (string, string) -> int)
      returns (outcome: SortOutcome)
      requires list != null ==> list.Valid()
      modifies list, headers
      ensures list == null ==> outcome == TableNotFound && unchanged(headers)
      ensures list != null ==> SortedAs(outcome, list, old(list.items), headers, columnIndex, collate)
    {
      if list == null {
        return TableNotFound;
      }
      var rows := list.items;
      var sortable := Filter(rows, HasLink);
      var nonSortable := Filter(rows, Unlinked);
      UpdateHeaderIndicators(columnIndex, headers);
      if MissesOrder(rows) {
        return OriginalOrderMissing;
      }
      var cmp := RowOrder(order, columnIndex, Captured().GetOr([]), collate);
      var sorted := SortBy(sortable, cmp);
      ArrangedSpec(rows, cmp);
      AppendPermutation(rows, sorted, nonSortable);
      list.AppendAll(sorted);
      list.AppendAll(nonSortable);
      DistinctPermutation(rows, list.items);
      outcome := Reordered;
    }

    /** `upIndicatorClickHandler` on header `headerIndex`. */
    method UpIndicatorClick(headerIndex: nat, list: ChartList?, headers: array<Indicator>, collate: (string, string) -> int)
      returns (outcome: SortOutcome)
      requires list != null ==> list.Valid()
      modifies this, list, headers
      ensures SortState(column, order) == AfterClick(SortState(old(column), old(order)), headerIndex, Asc)
      ensures tableId == old(tableId) && originalOrders == old(originalOrders)
      ensures list == null ==> outcome == TableNotFound && unchanged(headers)
      ensures list != null ==> SortedAs(outcome, list, old(list.items), headers, headerIndex, collate)
    {
      var next := AfterClick(SortState(column, order), headerIndex, Asc);
      column, order := next.column, next.order;
      outcome := SortTable(headerIndex, list, headers, collate);
    }

    /** `downIndicatorClickHandler` on header `headerIndex`. */
    method DownIndicatorClick(headerIndex: nat, list: ChartList?, headers: array<Indicator>, collate: (string, string) -> int)
      returns (outcome: SortOutcome)
      requires list != null ==> list.Valid()
      modifies this, list, headers
      ensures SortState(column, order) == AfterClick(SortState(old(column), old(order)), headerIndex, Desc)
      ensures tableId == old(tableId) && originalOrders == old(originalOrders)
      ensures list == null ==> outcome == TableNotFound && unchanged(headers)
      ensures list != null ==> SortedAs(outcome, list, old(list.items), headers, headerIndex, collate)
    {
      var next := AfterClick(SortState(column, order), headerIndex, Desc);
      column, order := next.column, next.order;
      outcome := SortTable(headerIndex, list, headers, collate);
    }

    /** `storeOriginalOrder()`: records the rows for the active table unless an order is already there. */
    method StoreOriginalOrder(rows: seq<Row>)
      modifies this
      ensures column == old(column) && order == old(order) && tableId == old(tableId)
      ensures forall id :: id in old(originalOrders) ==> id in originalOrders && originalOrders[id] == old(originalOrders)[id]
      ensures originalOrders == if tableId.Some? && tableId.value !in old(originalOrders)
        then old(originalOrders)[tableId.value := rows] else old(originalOrders)
    {
      if tableId.None? || tableId.value in originalOrders {
        return;
      }
      originalOrders := originalOrders[tableId.value := rows];
    }

    /**
     * `initialize()`, given the id of the visible table container (None when
     * there is none) and the rows of that table's list.
     */
    method Initialize(visible: Option<string>, rows: seq<Row>)
      modifies this
      ensures column == old(column) && order == old(order)
      ensures visible.None? ==> tableId == old(tableId) && originalOrders == old(originalOrders)
      ensures visible.Some? ==> tableId == visible
      ensures forall id :: id in old(originalOrders) ==> id in originalOrders && originalOrders[id] == old(originalOrders)[id]
      ensures visible.Some? ==> Captured() == Some(if visible.value in old(originalOrders) then old(originalOrders)[visible.value] else rows)
    {
      if visible.None? {
        return;
      }
      tableId := visible;
      StoreOriginalOrder(rows);
    }
  }
}
