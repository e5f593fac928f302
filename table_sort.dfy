/**
 * The row ordering of the Passmark chart sorter: what a row's cell holds,
 * how two rows compare for a column and a direction, how the browser's
 * stable sort arranges rows under a comparator, and the order `sortTable`
 * leaves the list in (rows with a link sorted, then the rows without one).
 */
module TableSort {
  import opened Wrappers
  import opened JsBuiltins

  /**
   * One `li` of a chart list. `link` is the text of the SPAN children of
   * its anchor, or None when the row holds no anchor; `id` tells rows with
   * equal content apart, as DOM node identity does.
   */
  datatype Row = Row(id: nat, link: Option<seq<string>>)

  /** The row holds an anchor (`row.querySelector('a')`). */
  predicate HasLink(r: Row) {
    r.link.Some?
  }

  /** The row holds no anchor: one of the extra rows at the bottom of a list. */
  predicate Unlinked(r: Row) {
    r.link.None?
  }

  /** The trimmed text of the row's span at `column`, or "" when there is none. */
  function CellValue(r: Row, column: nat): string {
    match r.link
    case None => ""
    case Some(spans) => if column < |spans| then Trim(spans[column]) else ""
  }

  /** The sort direction of the active column. */
  datatype Order = Unsorted | Asc | Desc

  predicate IsDigit(c: char) {
    '0' as int <= c as int <= '9' as int
  }

  /** The characters `replace(/[^0-9.-]+/g, '')` keeps. */
  predicate Kept(c: char) {
    IsDigit(c) || c == '.' || c == '-'
  }

  /** `value.replace(/[^0-9.-]+/g, '')`: the digits, points and minus signs of the text, in order. */
  function Clean(s: string): (r: string)
    ensures forall i :: 0 <= i < |r| ==> Kept(r[i])
    ensures forall i :: 0 <= i < |s| && Kept(s[i]) ==> s[i] in r
  {
    FilterSpec(s, Kept);
    Filter(s, Kept)
  }

  /** Cleaning works character by character: a text is cleaned piece by piece, in order. */
  lemma CleanConcat(a: string, b: string)
    ensures Clean(a + b) == Clean(a) + Clean(b)
  {
    FilterConcat(a, b, Kept);
  }

  /** One character is kept when it is a digit, `.` or `-`, and dropped otherwise. */
  lemma CleanChar(c: char)
    ensures Clean([c]) == if Kept(c) then [c] else []
  {
    var one: string := [c];
    assert one[0] == c && one[1..] == [];
    assert Filter(one, Kept) == (if Kept(c) then [c] else []) + Filter([], Kept);
  }

  /** `value.match(/^[0-9.,$%-]+$/)` succeeds. */
  predicate LooksNumeric(s: string) {
    |s| > 0 && forall i :: 0 <= i < |s| ==> IsDigit(s[i]) || s[i] in ".,$%-"
  }

  /** The length of the run of digits that starts the text. */
  function DigitRun(s: string): (n: nat)
    ensures n <= |s|
    ensures forall i :: 0 <= i < n ==> IsDigit(s[i])
    ensures n == |s| || !IsDigit(s[n])
  {
    if s != [] && IsDigit(s[0]) then 1 + DigitRun(s[1..]) else 0
  }

  /** The value of a string of decimal digits. */
  function DigitsValue(ds: string): nat
    requires forall i :: 0 <= i < |ds| ==> IsDigit(ds[i])
  {
    if ds == [] then 0
    else
      assert IsDigit(ds[|ds| - 1]);
      DigitsValue(ds[..|ds| - 1]) * 10 + (ds[|ds| - 1] as int - '0' as int)
  }

  /** The value of the digits after a decimal point: "25" is 0.25. */
  function FractionValue(ds: string): real
    requires forall i :: 0 <= i < |ds| ==> IsDigit(ds[i])
  {
    if ds == [] then 0.0
    else
      assert IsDigit(ds[0]);
      ((ds[0] as int - '0' as int) as real + FractionValue(ds[1..])) / 10.0
  }

  /**
   * `parseFloat` on a cleaned text (digits, points and minus signs only):
   * an optional minus, digits, optionally a point and more digits, read
   * as far as they go; None (NaN) when that prefix holds no digit.
   */
  function ParseFloat(s: string): Option<real> {
    var neg := |s| > 0 && s[0] == '-';
    var body := if neg then s[1..] else s;
    var whole := DigitRun(body);
    var rest := body[whole..];
    var frac := if |rest| > 0 && rest[0] == '.' then DigitRun(rest[1..]) else 0;
    if whole + frac == 0 then None
    else
      var magnitude := DigitsValue(body[..whole]) as real
        + (if frac == 0 then 0.0 else FractionValue(rest[1..1 + frac]));
      Some(if neg then -magnitude else magnitude)
  }

  /** A plain run of digits parses to its value, and with a leading minus to its negation. */
  lemma ParseDigits(ds: string)
    requires |ds| > 0 && forall i :: 0 <= i < |ds| ==> IsDigit(ds[i])
    ensures ParseFloat(ds) == Some(DigitsValue(ds) as real)
    ensures ParseFloat("-" + ds) == Some(-(DigitsValue(ds) as real))
  {
    ParseUnsigned(ds);
    ParseNegated(ds);
  }

  /** A plain run of digits parses to its value. */
  lemma ParseUnsigned(ds: string)
    requires |ds| > 0 && forall i :: 0 <= i < |ds| ==> IsDigit(ds[i])
    ensures ParseFloat(ds) == Some(DigitsValue(ds) as real)
  {
    DigitRunAll(ds);
    assert ds[..|ds|] == ds && ds[|ds|..] == [];
    assert ds[0] != '-' by { assert IsDigit(ds[0]); }
  }

  /** A minus followed by digits parses to the negated value. */
  lemma ParseNegated(ds: string)
    requires |ds| > 0 && forall i :: 0 <= i < |ds| ==> IsDigit(ds[i])
    ensures ParseFloat("-" + ds) == Some(-(DigitsValue(ds) as real))
  {
    DigitRunAll(ds);
    assert ds[..|ds|] == ds && ds[|ds|..] == [];
    var neg := "-" + ds;
    assert neg[0] == '-' && neg[1..] == ds;
  }

  lemma {:induction false} DigitRunAll(ds: string)
    requires forall i :: 0 <= i < |ds| ==> IsDigit(ds[i])
    ensures DigitRun(ds) == |ds|
  {
    if ds != [] {
      DigitRunAll(ds[1..]);
    }
  }

  /** A text without digits is NaN, whatever points and signs it holds. */
  lemma NoDigitsNoNumber(s: string)
    requires forall i :: 0 <= i < |s| ==> !IsDigit(s[i])
    ensures ParseFloat(s) == None
  {
  }

  /**
   * A cell's numeric reading: the parsed cleaned text when it is a number
   * and the raw text looks like `^[0-9.,$%-]+$`; None otherwise.
   */
  function NumericValue(v: string): Option<real> {
    if LooksNumeric(v) then ParseFloat(Clean(v)) else None
  }

  /**
   * The column comparator of `sortTable`. `collate` stands for
   * `localeCompare` with numeric collation. A negative result puts `a`
   * first.
   */
  function Compare(a: Row, b: Row, column: nat, order: Order, collate: (string, string) -> int): (r: real)
    ensures CellValue(a, column) == "NA" ==> r > 0.0
    ensures CellValue(a, column) != "NA" && CellValue(b, column) == "NA" ==> r < 0.0
  {
    var av := CellValue(a, column);
    var bv := CellValue(b, column);
    if av == "NA" then 1.0
    else if bv == "NA" then -1.0
    else CompareValues(av, bv, order, collate)
  }

  /** The comparator on two cell texts neither of which is "NA": by value when both are numeric, else by collation. */
  function CompareValues(av: string, bv: string, order: Order, collate: (string, string) -> int): real {
    var x := NumericValue(av);
    var y := NumericValue(bv);
    if x.Some? && y.Some? then (if order == Asc then x.value - y.value else y.value - x.value)
    else (if order == Asc then collate(av, bv) else collate(bv, av)) as real
  }

  /** The comparator `sortTable` hands to `sort` for a column and a direction. */
  function ByColumn(column: nat, order: Order, collate: (string, string) -> int): (Row, Row) -> real {
    (a, b) => Compare(a, b, column, order, collate)
  }

  /** The comparator of the unsorted state: positions in the captured original order. */
  function ByPosition<T(==)>(original: seq<T>): (T, T) -> real {
    (a, b) => (IndexOf(original, a) - IndexOf(original, b)) as real
  }

  function Sign(x: real): int {
    if x < 0.0 then -1 else if x > 0.0 then 1 else 0
  }

  /** `localeCompare` behaves as a total preorder: antisymmetric in sign and transitive. */
  ghost predicate IsCollation(collate: (string, string) -> int) {
    && (forall x, y :: collate(x, y) < 0 <==> collate(y, x) > 0)
    && (forall x, y, z :: collate(x, y) <= 0 && collate(y, z) <= 0 ==> collate(x, z) <= 0)
  }

  /**
   * Away from "NA", descending order is ascending order reversed: the
   * numeric branch negates exactly, the string branch in sign whenever
   * the collation is antisymmetric.
   */
  lemma DescMirrorsAsc(a: Row, b: Row, column: nat, collate: (string, string) -> int)
    requires CellValue(a, column) != "NA" && CellValue(b, column) != "NA"
    ensures NumericValue(CellValue(a, column)).Some? && NumericValue(CellValue(b, column)).Some? ==>
      Compare(a, b, column, Desc, collate) == -Compare(a, b, column, Asc, collate)
    ensures IsCollation(collate) ==>
      Sign(Compare(a, b, column, Desc, collate)) == -Sign(Compare(a, b, column, Asc, collate))
  {
    var av := CellValue(a, column);
    var bv := CellValue(b, column);
    if IsCollation(collate) {
      assert collate(av, bv) < 0 <==> collate(bv, av) > 0;
      assert collate(bv, av) < 0 <==> collate(av, bv) > 0;
    }
  }

  /* ---------------------------------------------------------------- sorting */

  /** Places `x` after the trailing elements it does not precede, scanning from the end. */
  function Insert<T>(sorted: seq<T>, x: T, cmp: (T, T) -> real): seq<T> {
    if sorted == [] then [x]
    else if cmp(x, sorted[|sorted| - 1]) < 0.0 then Insert(sorted[..|sorted| - 1], x, cmp) + [sorted[|sorted| - 1]]
    else sorted + [x]
  }

  /** Inserting adds exactly the inserted element. */
  lemma {:induction false} InsertPermutes<T>(sorted: seq<T>, x: T, cmp: (T, T) -> real)
    ensures multiset(Insert(sorted, x, cmp)) == multiset(sorted) + multiset{x}
  {
    if sorted != [] {
      var init, y := sorted[..|sorted| - 1], sorted[|sorted| - 1];
      assert sorted == init + [y];
      if cmp(x, y) < 0.0 {
        InsertPermutes(init, x, cmp);
        assert Insert(sorted, x, cmp) == Insert(init, x, cmp) + [y];
      }
    }
  }

  /**
   * `Array.prototype.sort` with a comparator: a stable insertion sort, each
   * element moving before every earlier one it compares below.
   */
  function SortBy<T>(xs: seq<T>, cmp: (T, T) -> real): seq<T> {
    if xs == [] then [] else Insert(SortBy(xs[..|xs| - 1], cmp), xs[|xs| - 1], cmp)
  }

  /** The sort is a permutation of its input. */
  lemma {:induction false} SortByPermutes<T>(xs: seq<T>, cmp: (T, T) -> real)
    ensures multiset(SortBy(xs, cmp)) == multiset(xs)
  {
    if xs != [] {
      var init, x := xs[..|xs| - 1], xs[|xs| - 1];
      SortByPermutes(init, cmp);
      InsertPermutes(SortBy(init, cmp), x, cmp);
      assert SortBy(xs, cmp) == Insert(SortBy(init, cmp), x, cmp);
      assert xs == init + [x];
      assert multiset(xs) == multiset(init) + multiset{x};
    }
  }

  /** Later elements never compare below earlier ones. */
  ghost predicate SortedBy<T>(r: seq<T>, cmp: (T, T) -> real) {
    forall i, j :: 0 <= i < j < |r| ==> cmp(r[j], r[i]) >= 0.0
  }

  /** The comparator is consistent on the given elements: antisymmetric in sign, and transitive. */
  ghost predicate ConsistentOn<T>(cmp: (T, T) -> real, xs: seq<T>) {
    && (forall x, y :: x in xs && y in xs && cmp(x, y) < 0.0 ==> cmp(y, x) > 0.0)
    && (forall x, y, z :: x in xs && y in xs && z in xs && cmp(x, y) >= 0.0 && cmp(y, z) >= 0.0 ==> cmp(x, z) >= 0.0)
  }

  /** Appending an element that no earlier element exceeds keeps a sequence sorted. */
  lemma SortedSnoc<T>(s: seq<T>, y: T, cmp: (T, T) -> real)
    requires SortedBy(s, cmp)
    requires forall i :: 0 <= i < |s| ==> cmp(y, s[i]) >= 0.0
    ensures SortedBy(s + [y], cmp)
  {
    forall i, j | 0 <= i < j < |s + [y]| ensures cmp((s + [y])[j], (s + [y])[i]) >= 0.0 {
      if j == |s| {
        assert (s + [y])[j] == y && (s + [y])[i] == s[i];
      } else {
        assert (s + [y])[j] == s[j] && (s + [y])[i] == s[i];
      }
    }
  }

  /** An element that compares at or above everything in a list, and the inserted one, still does after the insertion. */
  lemma InsertBounded<T>(init: seq<T>, x: T, top: T, cmp: (T, T) -> real)
    requires forall y :: y in init ==> cmp(top, y) >= 0.0
    requires cmp(top, x) >= 0.0
    ensures forall i :: 0 <= i < |Insert(init, x, cmp)| ==> cmp(top, Insert(init, x, cmp)[i]) >= 0.0
  {
    var ins := Insert(init, x, cmp);
    InsertPermutes(init, x, cmp);
    forall i | 0 <= i < |ins| ensures cmp(top, ins[i]) >= 0.0 {
      assert ins[i] in multiset(init) + multiset{x};
    }
  }

  lemma {:induction false} InsertSorted<T>(sorted: seq<T>, x: T, cmp: (T, T) -> real, xs: seq<T>)
    requires SortedBy(sorted, cmp) && ConsistentOn(cmp, xs)
    requires x in xs && forall y :: y in sorted ==> y in xs
    ensures SortedBy(Insert(sorted, x, cmp), cmp)
  {
    if sorted != [] {
      var n := |sorted| - 1;
      var last := sorted[n];
      var init := sorted[..n];
      assert last in xs;
      if cmp(x, last) < 0.0 {
        assert SortedBy(init, cmp);
        InsertSorted(init, x, cmp, xs);
        forall y | y in init ensures cmp(last, y) >= 0.0 {
          var k :| 0 <= k < n && init[k] == y;
          assert cmp(sorted[n], sorted[k]) >= 0.0;
        }
        InsertBounded(init, x, last, cmp);
        SortedSnoc(Insert(init, x, cmp), last, cmp);
        assert Insert(sorted, x, cmp) == Insert(init, x, cmp) + [last];
      } else {
        forall i | 0 <= i < |sorted| ensures cmp(x, sorted[i]) >= 0.0 {
          if i < n {
            assert cmp(last, sorted[i]) >= 0.0;
            assert sorted[i] in xs;
          }
        }
        SortedSnoc(sorted, x, cmp);
      }
    }
  }

  /** Under a consistent comparator the sort's result is sorted (and, by its contract, a permutation). */
  lemma {:induction false} SortBySorted<T>(xs: seq<T>, cmp: (T, T) -> real)
    requires ConsistentOn(cmp, xs)
    ensures SortedBy(SortBy(xs, cmp), cmp)
  {
    if xs != [] {
      var init := xs[..|xs| - 1];
      assert ConsistentOn(cmp, init);
      SortBySorted(init, cmp);
      SortByPermutes(init, cmp);
      forall y | y in SortBy(init, cmp) ensures y in xs {
        assert y in multiset(SortBy(init, cmp));
      }
      InsertSorted(SortBy(init, cmp), xs[|xs| - 1], cmp, xs);
    }
  }

  /** Where Insert puts the new element: after the last element it does not compare below. */
  function InsertPos<T>(sorted: seq<T>, x: T, cmp: (T, T) -> real): (k: nat)
    ensures k <= |sorted|
  {
    if sorted == [] then 0
    else if cmp(x, sorted[|sorted| - 1]) < 0.0 then InsertPos(sorted[..|sorted| - 1], x, cmp)
    else |sorted|
  }

  /** Insert puts the element at one position, in front of elements it compares below only. */
  lemma {:induction false} InsertAt<T>(sorted: seq<T>, x: T, cmp: (T, T) -> real)
    ensures Insert(sorted, x, cmp) == sorted[..InsertPos(sorted, x, cmp)] + [x] + sorted[InsertPos(sorted, x, cmp)..]
    ensures forall p :: InsertPos(sorted, x, cmp) <= p < |sorted| ==> cmp(x, sorted[p]) < 0.0
  {
    if sorted != [] {
      var n := |sorted| - 1;
      var init := sorted[..n];
      if cmp(x, sorted[n]) < 0.0 {
        InsertAt(init, x, cmp);
        var k := InsertPos(init, x, cmp);
        assert init[..k] == sorted[..k];
        assert init[k..] + [sorted[n]] == sorted[k..];
        forall p | k <= p < |sorted| ensures cmp(x, sorted[p]) < 0.0 {
          if p < n {
            assert sorted[p] == init[p];
          }
        }
      }
    }
  }

  /** `a` occurs before `b` in `r`. */
  ghost predicate Precedes<T>(r: seq<T>, a: T, b: T) {
    exists p, q :: 0 <= p < q < |r| && r[p] == a && r[q] == b
  }

  /** Inserting keeps the order of the elements already there. */
  lemma InsertKeepsOrder<T>(s: seq<T>, x: T, cmp: (T, T) -> real, a: T, b: T)
    requires Precedes(s, a, b)
    ensures Precedes(Insert(s, x, cmp), a, b)
  {
    var k := InsertPos(s, x, cmp);
    InsertAt(s, x, cmp);
    var r := s[..k] + [x] + s[k..];
    var p, q :| 0 <= p < q < |s| && s[p] == a && s[q] == b;
    var p', q' := if p < k then p else p + 1, if q < k then q else q + 1;
    assert r[p'] == s[p] && r[q'] == s[q];
  }

  /** An inserted element goes after every element it does not compare below. */
  lemma InsertAfter<T>(s: seq<T>, x: T, cmp: (T, T) -> real, y: T)
    requires y in s && cmp(x, y) >= 0.0
    ensures Precedes(Insert(s, x, cmp), y, x)
  {
    var k := InsertPos(s, x, cmp);
    InsertAt(s, x, cmp);
    var r := s[..k] + [x] + s[k..];
    var p :| 0 <= p < |s| && s[p] == y;
    assert p < k;
    assert r[p] == y && r[k] == x;
  }

  /**
   * An element the sort meets later than another, and that does not compare below it, ends up
   * after it. This holds for any comparator: it is the stability of the insertion sort.
   */
  lemma {:induction false} SortByKeepsOrder<T>(xs: seq<T>, cmp: (T, T) -> real, i: nat, j: nat)
    requires i < j < |xs| && cmp(xs[j], xs[i]) >= 0.0
    ensures Precedes(SortBy(xs, cmp), xs[i], xs[j])
  {
    var n := |xs| - 1;
    var init := xs[..n];
    var s := SortBy(init, cmp);
    assert SortBy(xs, cmp) == Insert(s, xs[n], cmp);
    assert xs[i] == init[i];
    if j == n {
      SortByPermutes(init, cmp);
      assert init[i] in multiset(s);
      InsertAfter(s, xs[n], cmp, xs[i]);
    } else {
      assert xs[j] == init[j];
      SortByKeepsOrder(init, cmp, i, j);
      InsertKeepsOrder(s, xs[n], cmp, xs[i], xs[j]);
    }
  }

  /**
   * The sort is stable: of two distinct elements, the later one goes after the earlier one
   * unless it compares below it.
   */
  lemma SortByStable<T>(xs: seq<T>, cmp: (T, T) -> real, i: nat, j: nat)
    requires Distinct(xs) && i < j < |xs| && cmp(xs[j], xs[i]) >= 0.0
    ensures 0 <= IndexOf(SortBy(xs, cmp), xs[i]) < IndexOf(SortBy(xs, cmp), xs[j])
  {
    var r := SortBy(xs, cmp);
    SortByPermutes(xs, cmp);
    DistinctPermutation(xs, r);
    SortByKeepsOrder(xs, cmp, i, j);
    var p, q :| 0 <= p < q < |r| && r[p] == xs[i] && r[q] == xs[j];
    var a, b := IndexOf(r, xs[i]), IndexOf(r, xs[j]);
    assert r[a] == r[p] && r[b] == r[q];
  }

  /** Under a consistent comparator, elements that compare equal keep their input order. */
  lemma SortByStableOnTies<T>(xs: seq<T>, cmp: (T, T) -> real, i: nat, j: nat)
    requires ConsistentOn(cmp, xs) && Distinct(xs) && i < j < |xs| && cmp(xs[i], xs[j]) == 0.0
    ensures 0 <= IndexOf(SortBy(xs, cmp), xs[i]) < IndexOf(SortBy(xs, cmp), xs[j])
  {
    assert xs[i] in xs && xs[j] in xs;
    SortByStable(xs, cmp, i, j);
  }

  /** Inserting an element that precedes every element of a suffix puts it before that suffix. */
  lemma {:induction false} InsertBeforeSuffix<T>(a: seq<T>, b: seq<T>, x: T, cmp: (T, T) -> real)
    requires forall i :: 0 <= i < |b| ==> cmp(x, b[i]) < 0.0
    ensures Insert(a + b, x, cmp) == Insert(a, x, cmp) + b
  {
    if b == [] {
      assert a + b == a;
    } else {
      var n := |b| - 1;
      assert (a + b)[..|a + b| - 1] == a + b[..n];
      InsertBeforeSuffix(a, b[..n], x, cmp);
      assert b == b[..n] + [b[n]];
    }
  }

  /** `r` ends with the group `g`, whose members all satisfy `last`, and nothing before that group does. */
  ghost predicate EndsWithGroup<T>(r: seq<T>, g: seq<T>, last: T -> bool) {
    && (forall i :: 0 <= i < |g| ==> last(g[i]))
    && |g| <= |r|
    && (forall i :: 0 <= i < |r| - |g| ==> !last(r[i]))
    && r[|r| - |g|..] == g
  }

  /** Inserting a member of the trailing group appends it to the group. */
  lemma InsertGroupMember<T>(r0: seq<T>, g: seq<T>, x: T, cmp: (T, T) -> real, last: T -> bool)
    requires forall x, y :: last(x) ==> cmp(x, y) >= 0.0
    requires EndsWithGroup(r0, g, last) && last(x)
    ensures EndsWithGroup(Insert(r0, x, cmp), g + [x], last)
  {
    var k0 := |r0| - |g|;
    if r0 != [] {
      assert cmp(x, r0[|r0| - 1]) >= 0.0;
    }
    assert Insert(r0, x, cmp) == r0 + [x];
    assert (r0 + [x])[k0..] == r0[k0..] + [x];
  }

  /** Inserting a non-member places it before the whole trailing group. */
  lemma InsertNonMember<T>(r0: seq<T>, g: seq<T>, x: T, cmp: (T, T) -> real, last: T -> bool)
    requires forall x, y :: !last(x) && last(y) ==> cmp(x, y) < 0.0
    requires EndsWithGroup(r0, g, last) && !last(x)
    ensures EndsWithGroup(Insert(r0, x, cmp), g, last)
  {
    var a := r0[..|r0| - |g|];
    assert r0 == a + g;
    InsertBeforeSuffix(a, g, x, cmp);
    var ia := Insert(a, x, cmp);
    InsertPermutes(a, x, cmp);
    forall i | 0 <= i < |ia| ensures !last(ia[i]) {
      assert ia[i] in multiset(ia);
      if ia[i] != x {
        var j :| 0 <= j < |a| && a[j] == ia[i];
        assert a[j] == r0[j];
      }
    }
    assert (ia + g)[|ia|..] == g;
  }

  /**
   * Elements the comparator always puts last stay at the end, in their
   * original relative order, behind every other element.
   */
  lemma {:induction false} SortKeepsTrailingGroup<T>(xs: seq<T>, cmp: (T, T) -> real, last: T -> bool)
    requires forall x, y :: last(x) ==> cmp(x, y) >= 0.0
    requires forall x, y :: !last(x) && last(y) ==> cmp(x, y) < 0.0
    ensures EndsWithGroup(SortBy(xs, cmp), Filter(xs, last), last)
  {
    if xs != [] {
      var init := xs[..|xs| - 1];
      var x := xs[|xs| - 1];
      assert xs == init + [x];
      SortKeepsTrailingGroup(init, cmp, last);
      FilterSnoc(init, x, last);
      if last(x) {
        InsertGroupMember(SortBy(init, cmp), Filter(init, last), x, cmp, last);
      } else {
        InsertNonMember(SortBy(init, cmp), Filter(init, last), x, cmp, last);
        assert Filter(init, last) + [] == Filter(init, last);
      }
    }
  }

  /** Whether a row's cell in the column reads "NA". */
  function IsNa(column: nat): Row -> bool {
    (x: Row) => CellValue(x, column) == "NA"
  }

  /** The column comparator puts every "NA" row at or after any row, and any other row before it. */
  lemma NaComparesLast(column: nat, order: Order, collate: (string, string) -> int)
    ensures forall x, y :: IsNa(column)(x) ==> ByColumn(column, order, collate)(x, y) >= 0.0
    ensures forall x, y :: !IsNa(column)(x) && IsNa(column)(y) ==> ByColumn(column, order, collate)(x, y) < 0.0
  {
    forall x, y | IsNa(column)(x) ensures ByColumn(column, order, collate)(x, y) >= 0.0 {
      assert CellValue(x, column) == "NA";
    }
    forall x, y | !IsNa(column)(x) && IsNa(column)(y) ensures ByColumn(column, order, collate)(x, y) < 0.0 {
      assert CellValue(y, column) == "NA";
    }
  }

  /** "NA" cells sort after every other row, in the order the rows came in, in either direction. */
  lemma NaRowsLast(rows: seq<Row>, column: nat, order: Order, collate: (string, string) -> int)
    ensures var r := SortBy(rows, ByColumn(column, order, collate));
      var na := Filter(rows, IsNa(column));
      && |na| <= |r|
      && (forall i :: 0 <= i < |r| - |na| ==> CellValue(r[i], column) != "NA")
      && r[|r| - |na|..] == na
  {
    var r := SortBy(rows, ByColumn(column, order, collate));
    var na := Filter(rows, IsNa(column));
    NaComparesLast(column, order, collate);
    SortKeepsTrailingGroup(rows, ByColumn(column, order, collate), IsNa(column));
    assert EndsWithGroup(r, na, IsNa(column));
    forall i | 0 <= i < |r| - |na| ensures CellValue(r[i], column) != "NA" {
      assert !IsNa(column)(r[i]);
    }
  }

  /** Two numeric readings stand in the order of the direction (descending for anything but Asc). */
  predicate NumbersInOrder(x: Option<real>, y: Option<real>, order: Order) {
    x.Some? && y.Some? && (if order == Asc then x.value <= y.value else y.value <= x.value)
  }

  /** Two cell texts stand in the collation order of the direction. */
  predicate TextsInOrder(x: string, y: string, order: Order, collate: (string, string) -> int) {
    if order == Asc then collate(x, y) <= 0 else collate(y, x) <= 0
  }

  /** The comparator's value on two rows with numeric cells. */
  lemma CompareNumbers(a: Row, b: Row, column: nat, order: Order, collate: (string, string) -> int)
    requires CellValue(a, column) != "NA" && NumericValue(CellValue(a, column)).Some?
    requires CellValue(b, column) != "NA" && NumericValue(CellValue(b, column)).Some?
    ensures var x := NumericValue(CellValue(a, column)).value;
      var y := NumericValue(CellValue(b, column)).value;
      Compare(a, b, column, order, collate) == if order == Asc then x - y else y - x
  {
    var av, bv := CellValue(a, column), CellValue(b, column);
    assert Compare(a, b, column, order, collate) == CompareValues(av, bv, order, collate);
  }

  /** The comparator's value on two rows, neither "NA", at least one of whose cells is not numeric. */
  lemma CompareTexts(a: Row, b: Row, column: nat, order: Order, collate: (string, string) -> int)
    requires CellValue(a, column) != "NA" && CellValue(b, column) != "NA"
    requires NumericValue(CellValue(a, column)).None? || NumericValue(CellValue(b, column)).None?
    ensures var x := CellValue(a, column);
      var y := CellValue(b, column);
      Compare(a, b, column, order, collate) == (if order == Asc then collate(x, y) else collate(y, x)) as real
  {
  }

  /**
   * A column whose every cell is numeric (and none "NA") ends up ordered
   * by value: non-decreasing for ascending, non-increasing for descending.
   */
  lemma NumericColumnSorted(rows: seq<Row>, column: nat, order: Order, collate: (string, string) -> int)
    requires forall r :: r in rows ==> CellValue(r, column) != "NA" && NumericValue(CellValue(r, column)).Some?
    ensures var r := SortBy(rows, ByColumn(column, order, collate));
      forall i, j :: 0 <= i < j < |r| ==>
        NumbersInOrder(NumericValue(CellValue(r[i], column)), NumericValue(CellValue(r[j], column)), order)
  {
    var cmp := ByColumn(column, order, collate);
    forall a, b | a in rows && b in rows && cmp(a, b) < 0.0 ensures cmp(b, a) > 0.0 {
      CompareNumbers(a, b, column, order, collate);
      CompareNumbers(b, a, column, order, collate);
    }
    forall a, b, c | a in rows && b in rows && c in rows && cmp(a, b) >= 0.0 && cmp(b, c) >= 0.0
      ensures cmp(a, c) >= 0.0
    {
      CompareNumbers(a, b, column, order, collate);
      CompareNumbers(b, c, column, order, collate);
      CompareNumbers(a, c, column, order, collate);
    }
    SortBySorted(rows, cmp);
    SortByPermutes(rows, cmp);
    var r := SortBy(rows, cmp);
    forall i, j | 0 <= i < j < |r|
      ensures NumbersInOrder(NumericValue(CellValue(r[i], column)), NumericValue(CellValue(r[j], column)), order)
    {
      assert r[i] in multiset(r) && r[j] in multiset(r);
      assert cmp(r[j], r[i]) >= 0.0;
      CompareNumbers(r[j], r[i], column, order, collate);
    }
  }

  /**
   * A column with no numeric cell and no "NA" ends up ordered by the
   * collation, in the requested direction.
   */
  lemma TextColumnSorted(rows: seq<Row>, column: nat, order: Order, collate: (string, string) -> int)
    requires IsCollation(collate)
    requires forall r :: r in rows ==> CellValue(r, column) != "NA" && NumericValue(CellValue(r, column)).None?
    ensures var r := SortBy(rows, ByColumn(column, order, collate));
      forall i, j :: 0 <= i < j < |r| ==> TextsInOrder(CellValue(r[i], column), CellValue(r[j], column), order, collate)
  {
    var cmp := ByColumn(column, order, collate);
    forall a, b | a in rows && b in rows && cmp(a, b) < 0.0 ensures cmp(b, a) > 0.0 {
      CompareTexts(a, b, column, order, collate);
      CompareTexts(b, a, column, order, collate);
      var x, y := CellValue(a, column), CellValue(b, column);
      assert collate(x, y) < 0 <==> collate(y, x) > 0;
      assert collate(y, x) < 0 <==> collate(x, y) > 0;
    }
    forall a, b, c | a in rows && b in rows && c in rows && cmp(a, b) >= 0.0 && cmp(b, c) >= 0.0
      ensures cmp(a, c) >= 0.0
    {
      CompareTexts(a, b, column, order, collate);
      CompareTexts(b, c, column, order, collate);
      CompareTexts(a, c, column, order, collate);
      CollationTransitive(collate, CellValue(a, column), CellValue(b, column), CellValue(c, column));
    }
    SortBySorted(rows, cmp);
    SortByPermutes(rows, cmp);
    var r := SortBy(rows, cmp);
    forall i, j | 0 <= i < j < |r|
      ensures TextsInOrder(CellValue(r[i], column), CellValue(r[j], column), order, collate)
    {
      assert r[i] in multiset(r) && r[j] in multiset(r);
      assert cmp(r[j], r[i]) >= 0.0;
      CompareTexts(r[j], r[i], column, order, collate);
      var x, y := CellValue(r[i], column), CellValue(r[j], column);
      assert collate(x, y) < 0 <==> collate(y, x) > 0;
    }
  }

  /** A collation's "not after" relation chains in both directions. */
  lemma CollationTransitive(collate: (string, string) -> int, x: string, y: string, z: string)
    requires IsCollation(collate)
    ensures collate(y, x) >= 0 && collate(z, y) >= 0 ==> collate(z, x) >= 0
    ensures collate(x, y) >= 0 && collate(y, z) >= 0 ==> collate(x, z) >= 0
  {
    assert collate(x, y) < 0 <==> collate(y, x) > 0;
    assert collate(y, z) < 0 <==> collate(z, y) > 0;
    assert collate(x, z) < 0 <==> collate(z, x) > 0;
    assert collate(x, y) <= 0 && collate(y, z) <= 0 ==> collate(x, z) <= 0;
    assert collate(z, y) <= 0 && collate(y, x) <= 0 ==> collate(z, x) <= 0;
  }

  /* ---------------------------------------------------- the original order */

  /** Membership in a list, as a filter predicate. */
  function Among<T(==)>(keep: seq<T>): T -> bool {
    x => x in keep
  }

  /** In a list without repetitions, `indexOf` of the element at `i` is `i`. */
  lemma IndexOfDistinct<T>(o: seq<T>, i: nat)
    requires Distinct(o) && i < |o|
    ensures IndexOf(o, o[i]) == i
  {
    assert o[i] in o;
  }

  /** Inserting the element at position `m - 1` after the kept elements of `o[..m - 1]` appends it. */
  lemma InsertLatest<T>(o: seq<T>, m: nat, keep: seq<T>)
    requires Distinct(o) && 0 < m <= |o| && o[m - 1] !in keep
    ensures Insert(Filter(o[..m], Among(keep)), o[m - 1], ByPosition(o)) == Filter(o[..m], Among(keep + [o[m - 1]]))
  {
    var x := o[m - 1];
    var pre := o[..m - 1];
    assert o[..m] == pre + [x];
    FilterSnoc(pre, x, Among(keep));
    FilterSnoc(pre, x, Among(keep + [x]));
    forall i | 0 <= i < |pre| ensures Among(keep)(pre[i]) == Among(keep + [x])(pre[i]) {
      assert pre[i] == o[i] && i < m - 1;
    }
    FilterCongruent(pre, Among(keep), Among(keep + [x]));
    var f := Filter(pre, Among(keep));
    assert Filter(o[..m], Among(keep)) == f + [];
    assert Filter(o[..m], Among(keep + [x])) == f + [x];
    if f != [] {
      FilterSpec(pre, Among(keep));
      assert f[|f| - 1] in f;
      LatestComesLast(o, m, f[|f| - 1]);
    }
    assert Insert(f, x, ByPosition(o)) == f + [x];
  }

  /** An element of `o[..m - 1]` compares below `o[m - 1]` by position. */
  lemma LatestComesLast<T>(o: seq<T>, m: nat, e: T)
    requires Distinct(o) && 0 < m <= |o| && e in o[..m - 1]
    ensures ByPosition(o)(o[m - 1], e) > 0.0
  {
    var j :| 0 <= j < m - 1 && o[..m - 1][j] == e;
    assert o[j] == e;
    IndexOfDistinct(o, j);
    IndexOfDistinct(o, m - 1);
  }

  /** Inserting an element that sits earlier in `o` passes over a kept element at position `m - 1`. */
  lemma InsertBeforeKept<T>(o: seq<T>, f: seq<T>, x: T, j: nat, m: nat)
    requires Distinct(o) && j < m - 1 && 0 < m <= |o| && o[j] == x
    ensures Insert(f + [o[m - 1]], x, ByPosition(o)) == Insert(f, x, ByPosition(o)) + [o[m - 1]]
  {
    IndexOfDistinct(o, m - 1);
    IndexOfDistinct(o, j);
    assert ByPosition(o)(x, o[m - 1]) < 0.0;
    assert (f + [o[m - 1]])[..|f|] == f;
  }

  /** Inserting an element that sits earlier in `o` passes over position `m - 1`. */
  lemma InsertEarlier<T>(o: seq<T>, m: nat, keep: seq<T>, x: T, j: nat)
    requires Distinct(o) && 0 < m <= |o| && j < m - 1 && o[j] == x && x !in keep
    requires Insert(Filter(o[..m - 1], Among(keep)), x, ByPosition(o)) == Filter(o[..m - 1], Among(keep + [x]))
    ensures Insert(Filter(o[..m], Among(keep)), x, ByPosition(o)) == Filter(o[..m], Among(keep + [x]))
  {
    var pre := o[..m - 1];
    var last := o[m - 1];
    assert o[..m] == pre + [last];
    FilterSnoc(pre, last, Among(keep));
    FilterSnoc(pre, last, Among(keep + [x]));
    assert last != x;
    if last in keep {
      InsertBeforeKept(o, Filter(pre, Among(keep)), x, j, m);
    } else {
      assert Filter(o[..m], Among(keep)) == Filter(pre, Among(keep));
      assert Filter(o[..m], Among(keep + [x])) == Filter(pre, Among(keep + [x]));
    }
  }

  lemma {:induction false} InsertByPosition<T>(o: seq<T>, m: nat, keep: seq<T>, j: nat)
    requires Distinct(o) && j < m <= |o| && o[j] !in keep
    ensures Insert(Filter(o[..m], Among(keep)), o[j], ByPosition(o)) == Filter(o[..m], Among(keep + [o[j]]))
  {
    if j == m - 1 {
      InsertLatest(o, m, keep);
    } else {
      InsertByPosition(o, m - 1, keep, j);
      InsertEarlier(o, m, keep, o[j], j);
    }
  }

  /**
   * Sorting rows by their positions in a captured original list puts them
   * back in exactly the order they have there.
   */
  lemma {:induction false} RestoresCapturedOrder<T>(o: seq<T>, rows: seq<T>)
    requires Distinct(o) && Distinct(rows)
    requires forall i :: 0 <= i < |rows| ==> rows[i] in o
    ensures SortBy(rows, ByPosition(o)) == Filter(o, Among(rows))
  {
    if rows == [] {
      FilterCongruent(o, Among(rows), (_: T) => false);
      NothingKept(o);
    } else {
      var init := rows[..|rows| - 1];
      var x := rows[|rows| - 1];
      assert rows == init + [x];
      RestoresCapturedOrder(o, init);
      assert x !in init;
      assert o[..|o|] == o;
      var j :| 0 <= j < |o| && o[j] == x;
      InsertByPosition(o, |o|, init, j);
    }
  }

  lemma {:induction false} NothingKept<T>(o: seq<T>)
    ensures Filter(o, (_: T) => false) == []
  {
    if o != [] {
      NothingKept(o[1..]);
    }
  }

  /* ------------------------------------------------------ the list's order */

  /** The list after `sortTable`: the rows with a link, sorted, then the rows without one. */
  function Arranged(rows: seq<Row>, cmp: (Row, Row) -> real): seq<Row> {
    SortBy(Filter(rows, HasLink), cmp) + Filter(rows, Unlinked)
  }

  /**
   * The arranged list is a permutation of the rows; its first part holds
   * exactly the linked rows, and the rest is the unlinked rows in their
   * relative order.
   */
  lemma ArrangedSpec(rows: seq<Row>, cmp: (Row, Row) -> real)
    ensures multiset(Arranged(rows, cmp)) == multiset(rows)
    ensures var k := |Filter(rows, HasLink)|;
      && k <= |Arranged(rows, cmp)|
      && (forall i :: 0 <= i < k ==> HasLink(Arranged(rows, cmp)[i]))
      && Arranged(rows, cmp)[k..] == Filter(rows, Unlinked)
  {
    FilterPartition(rows, HasLink, Unlinked);
    FilterSpec(rows, HasLink);
    var s := SortBy(Filter(rows, HasLink), cmp);
    SortByPermutes(Filter(rows, HasLink), cmp);
    forall i | 0 <= i < |s| ensures HasLink(s[i]) {
      assert s[i] in multiset(s);
    }
  }

  /**
   * Back in the unsorted state, when the list holds the captured rows in
   * any order, the linked rows return to their captured order.
   */
  lemma RestoresOriginal(rows: seq<Row>, original: seq<Row>)
    requires Distinct(original) && multiset(rows) == multiset(original)
    ensures Arranged(rows, ByPosition(original)) == Filter(original, HasLink) + Filter(rows, Unlinked)
  {
    DistinctPermutation(original, rows);
    var linked := Filter(rows, HasLink);
    FilterSpec(rows, HasLink);
    forall i, j | 0 <= i < j < |linked| ensures linked[i] != linked[j] {
      FilterDistinct(rows, HasLink, i, j);
    }
    forall i | 0 <= i < |linked| ensures linked[i] in original {
      assert linked[i] in linked;
      assert linked[i] in multiset(rows);
    }
    RestoresCapturedOrder(original, linked);
    forall i | 0 <= i < |original| ensures Among(linked)(original[i]) == HasLink(original[i]) {
      assert original[i] in multiset(rows);
    }
    FilterCongruent(original, Among(linked), HasLink);
  }

  /** A list whose linked rows all come before its unlinked ones. */
  predicate LinkedFirst(rows: seq<Row>) {
    rows == Filter(rows, HasLink) + Filter(rows, Unlinked)
  }

  lemma {:induction false} FilterIdempotent<T>(xs: seq<T>, p: T -> bool)
    ensures Filter(Filter(xs, p), p) == Filter(xs, p)
  {
    if xs != [] {
      FilterIdempotent(xs[1..], p);
      FilterConcat(if p(xs[0]) then [xs[0]] else [], Filter(xs[1..], p), p);
    }
  }

  lemma {:induction false} FilterNone<T>(xs: seq<T>, p: T -> bool)
    requires forall i :: 0 <= i < |xs| ==> !p(xs[i])
    ensures Filter(xs, p) == []
  {
    if xs != [] {
      FilterNone(xs[1..], p);
    }
  }

  /**
   * Sorting a captured list by any comparator and then returning to the
   * unsorted state gives back the list as captured, when its linked rows
   * came first.
   */
  lemma SortThenRestore(original: seq<Row>, cmp: (Row, Row) -> real)
    requires Distinct(original) && LinkedFirst(original)
    ensures Arranged(Arranged(original, cmp), ByPosition(original)) == original
  {
    var s := SortBy(Filter(original, HasLink), cmp);
    var rest := Filter(original, Unlinked);
    var sorted := Arranged(original, cmp);
    assert sorted == s + rest;
    ArrangedSpec(original, cmp);
    RestoresOriginal(sorted, original);
    FilterConcat(s, rest, Unlinked);
    forall i | 0 <= i < |s| ensures !Unlinked(s[i]) {
      assert HasLink(sorted[i]);
    }
    FilterNone(s, Unlinked);
    FilterIdempotent(original, Unlinked);
    assert Filter(sorted, Unlinked) == rest;
  }

  /** Filtering a sequence without repetitions keeps it without repetitions. */
  lemma {:induction false} FilterDistinct<T>(xs: seq<T>, p: T -> bool, i: nat, j: nat)
    requires Distinct(xs) && i < j < |Filter(xs, p)|
    ensures Filter(xs, p)[i] != Filter(xs, p)[j]
  {
    var tail := Filter(xs[1..], p);
    if p(xs[0]) {
      if i == 0 {
        FilterSpec(xs[1..], p);
        assert Filter(xs, p)[j] == tail[j - 1];
        assert tail[j - 1] in tail;
      } else {
        FilterDistinct(xs[1..], p, i - 1, j - 1);
      }
    } else {
      FilterDistinct(xs[1..], p, i, j);
    }
  }

  /** Cleaning leaves a run of digits as it is. */
  lemma {:induction false} CleanDigits(ds: string)
    requires forall i :: 0 <= i < |ds| ==> IsDigit(ds[i])
    ensures Clean(ds) == ds
  {
    if ds != [] {
      CleanDigits(ds[1..]);
      assert ds == [ds[0]] + ds[1..];
    }
  }

  /** A dollar price reads as its amount: the sign is cleaned away. */
  lemma DollarAmount(ds: string)
    requires |ds| > 0 && forall i :: 0 <= i < |ds| ==> IsDigit(ds[i])
    ensures NumericValue("$" + ds) == Some(DigitsValue(ds) as real)
  {
    var s := "$" + ds;
    assert LooksNumeric(s) by {
      forall i | 0 <= i < |s| ensures IsDigit(s[i]) || s[i] in ".,$%-" {
        if i > 0 {
          assert s[i] == ds[i - 1];
        }
      }
    }
    assert Clean(s) == ds by {
      FilterConcat("$", ds, Kept);
      CleanDigits(ds);
      assert Filter("$", Kept) == [];
    }
    ParseDigits(ds);
  }

  lemma CleanSeparated(hi: string, lo: string)
    requires forall i :: 0 <= i < |hi| ==> IsDigit(hi[i])
    requires forall i :: 0 <= i < |lo| ==> IsDigit(lo[i])
    ensures Clean(hi + "," + lo) == hi + lo
  {
    var comma: string := ",";
    assert Filter(comma, Kept) == [];
    FilterConcat(hi, comma, Kept);
    CleanDigits(hi);
    assert Filter(hi + comma, Kept) == hi;
    FilterConcat(hi + comma, lo, Kept);
    CleanDigits(lo);
  }

  lemma SeparatedLooksNumeric(hi: string, lo: string)
    requires forall i :: 0 <= i < |hi| ==> IsDigit(hi[i])
    requires forall i :: 0 <= i < |lo| ==> IsDigit(lo[i])
    ensures LooksNumeric(hi + "," + lo)
  {
    var s := hi + "," + lo;
    forall i | 0 <= i < |s| ensures IsDigit(s[i]) || s[i] in ".,$%-" {
      if i < |hi| {
        assert s[i] == hi[i];
      } else if i > |hi| {
        assert s[i] == lo[i - |hi| - 1];
      }
    }
  }

  /** Thousands separators are cleaned away: "1,200" reads as 1200. */
  lemma ThousandsSeparated(hi: string, lo: string)
    requires |hi| > 0 && forall i :: 0 <= i < |hi| ==> IsDigit(hi[i])
    requires |lo| > 0 && forall i :: 0 <= i < |lo| ==> IsDigit(lo[i])
    ensures NumericValue(hi + "," + lo) == Some(DigitsValue(hi + lo) as real)
  {
    CleanSeparated(hi, lo);
    SeparatedLooksNumeric(hi, lo);
    assert forall i :: 0 <= i < |hi + lo| ==> IsDigit((hi + lo)[i]);
    ParseDigits(hi + lo);
  }

  /** A price cell "$" + digits holds its amount as numeric reading. */
  lemma PriceCell(id: nat, ds: string)
    requires |ds| > 0 && forall i :: 0 <= i < |ds| ==> IsDigit(ds[i])
    ensures CellValue(Row(id, Some(["$" + ds])), 0) == "$" + ds
    ensures NumericValue(CellValue(Row(id, Some(["$" + ds])), 0)) == Some(DigitsValue(ds) as real)
  {
    var s := "$" + ds;
    assert s[|s| - 1] == ds[|ds| - 1];
    TrimUntouched(s);
    DollarAmount(ds);
  }

  /** In ascending order a lower price precedes a higher one, and both precede "NA". */
  lemma PriceRowsCompare(low: string, high: string, collate: (string, string) -> int)
    requires |low| > 0 && forall i :: 0 <= i < |low| ==> IsDigit(low[i])
    requires |high| > 0 && forall i :: 0 <= i < |high| ==> IsDigit(high[i])
    requires DigitsValue(low) < DigitsValue(high)
    ensures var na := Row(0, Some(["NA"]));
      var h := Row(1, Some(["$" + high]));
      var l := Row(2, Some(["$" + low]));
      var cmp := ByColumn(0, Asc, collate);
      cmp(h, na) < 0.0 && cmp(l, na) < 0.0 && cmp(l, h) < 0.0
  {
    var na := Row(0, Some(["NA"]));
    var h := Row(1, Some(["$" + high]));
    var l := Row(2, Some(["$" + low]));
    NaCell();
    PriceCell(1, high);
    PriceCell(2, low);
    assert ("$" + high)[0] == '$' && ("$" + low)[0] == '$';
    BeforeNa(h, na, 0, Asc, collate);
    BeforeNa(l, na, 0, Asc, collate);
    CompareNumbers(l, h, 0, Asc, collate);
  }

  /** A single span whose text has no surrounding white space is the row's first cell as it is. */
  lemma SingleCell(id: nat, t: string)
    requires t != [] ==> !IsJsSpace(t[0]) && !IsJsSpace(t[|t| - 1])
    ensures CellValue(Row(id, Some([t])), 0) == t
  {
    var r := Row(id, Some([t]));
    assert r.link.value[0] == t;
    TrimUntouched(t);
  }

  lemma NaCell()
    ensures CellValue(Row(0, Some(["NA"])), 0) == "NA"
  {
    var t := "NA";
    assert t[0] == 'N' && t[|t| - 1] == 'A';
    SingleCell(0, t);
  }

  lemma BeforeNa(a: Row, na: Row, column: nat, order: Order, collate: (string, string) -> int)
    requires CellValue(a, column) != "NA" && CellValue(na, column) == "NA"
    ensures ByColumn(column, order, collate)(a, na) < 0.0
  {
  }

  /**
   * Sorting prices ascending: a row "NA" first, then "$" + `high`, then
   * "$" + `low` end up as low, high, "NA".
   */
  lemma PricesAscending(low: string, high: string, collate: (string, string) -> int)
    requires |low| > 0 && forall i :: 0 <= i < |low| ==> IsDigit(low[i])
    requires |high| > 0 && forall i :: 0 <= i < |high| ==> IsDigit(high[i])
    requires DigitsValue(low) < DigitsValue(high)
    ensures var na := Row(0, Some(["NA"]));
      var h := Row(1, Some(["$" + high]));
      var l := Row(2, Some(["$" + low]));
      SortBy([na, h, l], ByColumn(0, Asc, collate)) == [l, h, na]
  {
    PriceRowsCompare(low, high, collate);
    SortReversesThree(Row(0, Some(["NA"])), Row(1, Some(["$" + high])), Row(2, Some(["$" + low])), ByColumn(0, Asc, collate));
  }

  /** Three elements each of which compares below all earlier ones come out reversed. */
  lemma SortReversesThree<T>(a: T, b: T, c: T, cmp: (T, T) -> real)
    requires cmp(b, a) < 0.0 && cmp(c, a) < 0.0 && cmp(c, b) < 0.0
    ensures SortBy([a, b, c], cmp) == [c, b, a]
  {
    assert [a, b, c][..2] == [a, b];
    assert [a, b][..1] == [a];
    assert [a][..0] == [];
    assert SortBy([a], cmp) == [a];
    assert SortBy([a, b], cmp) == Insert([a], b, cmp) == [b, a];
    assert [b, a][..1] == [b];
    assert Insert([b, a], c, cmp) == Insert([b], c, cmp) + [a];
    assert Insert([b], c, cmp) == [c, b];
  }
}
