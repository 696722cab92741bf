/**
 * The table view (src/renderer/component/DB/Content.jsx): the rows of one
 * table, sorted for display by a clicked column, a context menu on a cell,
 * and the edit and delete actions it offers. The component's React state is
 * the state of a ContentTable object. `localeCompare` is the parameter `lc`,
 * about which only ECMA-262's requirement is assumed: it orders strings
 * consistently (LocaleOrder).
 */
module Content {
  import opened JsText
  import DbPage

  /** A result row: column name to value; a column the row lacks reads as
      undefined. */
  type Row = map<string, JsValue>

  function CellAt(row: Row, key: string): JsValue
  {
    if key in row then row[key] else Undefined
  }

  // ---------------------------------------------------------------------------
  // The header-click sort cycle
  // ---------------------------------------------------------------------------

  datatype Direction = Asc | Desc

  /** `{ key, direction }`; None stands for null. */
  datatype SortConfig = SortConfig(key: Option<string>, direction: Option<Direction>)

  const Unsorted := SortConfig(None, None)

  /** handleSort: a click on the sorted-ascending column sorts it descending,
      a click on the sorted-descending column removes the sort, any other
      click sorts the clicked column ascending. */
  function NextSort(config: SortConfig, key: string): (r: SortConfig)
    ensures config == SortConfig(Some(key), Some(Asc)) ==> r == SortConfig(Some(key), Some(Desc))
    ensures config == SortConfig(Some(key), Some(Desc)) ==> r == Unsorted
    ensures config != SortConfig(Some(key), Some(Asc)) && config != SortConfig(Some(key), Some(Desc))
            ==> r == SortConfig(Some(key), Some(Asc))
  {
    if config.key == Some(key) && config.direction == Some(Asc) then SortConfig(Some(key), Some(Desc))
    else if config.key == Some(key) && config.direction == Some(Desc) then Unsorted
    else SortConfig(Some(key), Some(Asc))
  }

  /** The states the cycle can reach: unsorted, or a column with a direction. */
  predicate WellFormed(config: SortConfig)
  {
    config.key.Some? <==> config.direction.Some?
  }

  /** Clicking the same column three times from any well-formed state that
      does not already sort it comes back to unsorted, through ascending and
      descending; the cycle never leaves the well-formed states. */
  lemma ThreeClicks(config: SortConfig, key: string)
    requires WellFormed(config) && config.key != Some(key)
    ensures NextSort(config, key) == SortConfig(Some(key), Some(Asc))
    ensures NextSort(NextSort(config, key), key) == SortConfig(Some(key), Some(Desc))
    ensures NextSort(NextSort(NextSort(config, key), key), key) == Unsorted
    ensures WellFormed(NextSort(config, key))
  {
  }

  /** Sorting applies only with a truthy key and a direction: a column whose
      name is the empty string is never sorted. */
  predicate Active(config: SortConfig)
  {
    config.key.Some? && config.key.value != "" && config.direction.Some?
  }

  // ---------------------------------------------------------------------------
  // The comparator
  // ---------------------------------------------------------------------------

  /** ECMA-262 asks of localeCompare that it be a consistent comparison: the
      sign flips with the arguments and the order is transitive. */
  ghost predicate LocaleOrder(lc: (string, string) -> int)
  {
    && (forall x: string, y: string :: lc(x, y) < 0 <==> lc(y, x) > 0)
    && (forall x: string, y: string, z: string :: lc(x, y) <= 0 && lc(y, z) <= 0 ==> lc(x, z) <= 0)
  }

  /** The comparator passed to sort, on the two cells: a null first argument
      answers 1 (even against another null), a null second argument -1,
      two numbers their difference, anything else the locale order of
      their texts. */
  function CompareCells(dir: Direction, a: JsValue, b: JsValue, lc: (string, string) -> int): (r: int)
    ensures a == Null ==> r > 0
    ensures a != Null && b == Null ==> r < 0
    ensures a.Num? && b.Num? && dir == Asc ==> (r <= 0 <==> a.n <= b.n)
    ensures a.Num? && b.Num? && dir == Desc ==> (r <= 0 <==> b.n <= a.n)
    ensures a != Null && b != Null && !(a.Num? && b.Num?) ==>
      r == (if dir == Asc then lc(ToText(a), ToText(b)) else lc(ToText(b), ToText(a)))
  {
    if a == Null then 1
    else if b == Null then -1
    else if a.Num? && b.Num? then (if dir == Asc then a.n - b.n else b.n - a.n)
    else if dir == Asc then lc(ToText(a), ToText(b))
    else lc(ToText(b), ToText(a))
  }

  /** Two non-null cells are compared the same way in both directions... */
  lemma CompareFlip(dir: Direction, a: JsValue, b: JsValue, lc: (string, string) -> int)
    requires LocaleOrder(lc) && a != Null && b != Null
    ensures CompareCells(dir, a, b, lc) > 0 ==> CompareCells(dir, b, a, lc) < 0
    ensures CompareCells(dir, a, b, lc) < 0 ==> CompareCells(dir, b, a, lc) > 0
    ensures CompareCells(dir, a, b, lc) == 0 ==> CompareCells(dir, b, a, lc) == 0
  {
  }

  /** A column is uniform when its non-null cells are all numbers or none of
      them is: the comparator then compares them all the same way. */
  predicate SameKind(numeric: bool, v: JsValue)
  {
    v == Null || v.Num? == numeric
  }

  /** ... and transitively when they are of one kind. */
  lemma CompareChain(dir: Direction, a: JsValue, b: JsValue, c: JsValue, lc: (string, string) -> int,
                     numeric: bool)
    requires LocaleOrder(lc) && a != Null && b != Null && c != Null
    requires SameKind(numeric, a) && SameKind(numeric, b) && SameKind(numeric, c)
    requires CompareCells(dir, a, b, lc) <= 0 && CompareCells(dir, b, c, lc) <= 0
    ensures CompareCells(dir, a, c, lc) <= 0
  {
    if !numeric {
      if dir == Desc {
        assert lc(ToText(c), ToText(b)) <= 0 && lc(ToText(b), ToText(a)) <= 0;
      }
    }
  }

  /** Numbers mixed with text have no consistent order: under any locale
      that puts "10" before "5x" and "5x" before "9" (as code-unit order
      does), 9 comes before 10, 10 before "5x" and "5x" before 9. */
  lemma MixedColumnHasCycle(lc: (string, string) -> int)
    requires lc("10", "5x") < 0 && lc("5x", "9") < 0
    ensures CompareCells(Asc, Num(9), Num(10), lc) < 0
    ensures CompareCells(Asc, Num(10), Str("5x"), lc) < 0
    ensures CompareCells(Asc, Str("5x"), Num(9), lc) < 0
  {
    assert ToText(Num(9)) == "9" by { assert NatToDecimal(9) == "9"; }
    assert ToText(Num(10)) == "10" by { assert NatToDecimal(10) == NatToDecimal(1) + "0"; }
  }

  // ---------------------------------------------------------------------------
  // sortedRows: a copy of rows, sorted by the comparator
  // ---------------------------------------------------------------------------

  /** A row tagged with its position in `rows`. */
  datatype Entry = Entry(index: nat, row: Row)

  function RowsOf(entries: seq<Entry>): (r: seq<Row>)
    ensures |r| == |entries|
    ensures forall k | 0 <= k < |entries| :: r[k] == entries[k].row
  {
    seq(|entries|, k requires 0 <= k < |entries| => entries[k].row)
  }

  /** The rows tagged with their positions: dropping the tags gives the rows
      back, and no two entries share a position. */
  function Tagged(rows: seq<Row>): (r: seq<Entry>)
    ensures |r| == |rows|
    ensures forall k | 0 <= k < |rows| :: r[k] == Entry(k, rows[k])
    ensures RowsOf(r) == rows
    ensures forall i, j | 0 <= i < j < |r| :: r[i].index != r[j].index
  {
    seq(|rows|, k requires 0 <= k < |rows| => Entry(k, rows[k]))
  }

  function Cell(e: Entry, key: string): JsValue
  {
    CellAt(e.row, key)
  }

  /** One step of insertion sort: x moves left past every entry for which
      compare(x, entry) is negative, and stays behind the first one for which
      it is not. This is the test of V8's binary insertion sort, which keeps
      equal entries, and null cells among themselves, in their order. */
  function Insert(sorted: seq<Entry>, x: Entry, dir: Direction, key: string,
                  lc: (string, string) -> int): (r: seq<Entry>)
    ensures |r| == |sorted| + 1
  {
    if sorted == [] then [x]
    else
      var last := sorted[|sorted| - 1];
      if CompareCells(dir, Cell(x, key), Cell(last, key), lc) < 0 then
        Insert(sorted[..|sorted| - 1], x, dir, key, lc) + [last]
      else sorted + [x]
  }

  lemma {:induction false} InsertPermutes(sorted: seq<Entry>, x: Entry, dir: Direction, key: string,
                                          lc: (string, string) -> int)
    ensures multiset(Insert(sorted, x, dir, key, lc)) == multiset(sorted) + multiset{x}
    decreases |sorted|
  {
    if sorted != [] {
      var last := sorted[|sorted| - 1];
      assert sorted == sorted[..|sorted| - 1] + [last];
      if CompareCells(dir, Cell(x, key), Cell(last, key), lc) < 0 {
        InsertPermutes(sorted[..|sorted| - 1], x, dir, key, lc);
      }
    }
  }

  /** Insertion sort of the tagged rows, the model of Array.prototype.sort
      with this comparator. */
  function SortEntries(entries: seq<Entry>, dir: Direction, key: string,
                       lc: (string, string) -> int): (r: seq<Entry>)
    ensures |r| == |entries|
  {
    if entries == [] then []
    else
      Insert(SortEntries(entries[..|entries| - 1], dir, key, lc), entries[|entries| - 1], dir, key, lc)
  }

  lemma SortEntriesStep(entries: seq<Entry>, i: nat, dir: Direction, key: string,
                        lc: (string, string) -> int)
    requires i < |entries|
    ensures SortEntries(entries[..i + 1], dir, key, lc)
            == Insert(SortEntries(entries[..i], dir, key, lc), entries[i], dir, key, lc)
  {
    assert entries[..i + 1][..i] == entries[..i];
  }

  lemma {:induction false} SortPermutes(entries: seq<Entry>, dir: Direction, key: string,
                                        lc: (string, string) -> int)
    ensures multiset(SortEntries(entries, dir, key, lc)) == multiset(entries)
    decreases |entries|
  {
    if entries != [] {
      var init, x := entries[..|entries| - 1], entries[|entries| - 1];
      var sorted := SortEntries(init, dir, key, lc);
      assert SortEntries(entries, dir, key, lc) == Insert(sorted, x, dir, key, lc);
      assert multiset(Insert(sorted, x, dir, key, lc)) == multiset(sorted) + multiset{x} by {
        InsertPermutes(sorted, x, dir, key, lc);
      }
      assert multiset(sorted) == multiset(init) by {
        SortPermutes(init, dir, key, lc);
      }
      assert multiset(entries) == multiset(init) + multiset{x} by {
        assert entries == init + [x];
      }
    }
  }

  /** The rows in display order, each with its position in `rows`. */
  function DisplayOrder(rows: seq<Row>, config: SortConfig, lc: (string, string) -> int): (r: seq<Entry>)
    ensures |r| == |rows|
  {
    if Active(config) then SortEntries(Tagged(rows), config.direction.value, config.key.value, lc)
    else Tagged(rows)
  }

  /** sortedRows: one shown row per stored row, and the stored rows
      themselves while no sort is active. */
  function SortedRows(rows: seq<Row>, config: SortConfig, lc: (string, string) -> int): (r: seq<Row>)
    ensures |r| == |rows|
    ensures !Active(config) ==> r == rows
  {
    RowsOf(DisplayOrder(rows, config, lc))
  }

  lemma RowsOfAppend(a: seq<Entry>, b: seq<Entry>)
    ensures RowsOf(a + b) == RowsOf(a) + RowsOf(b)
  {
  }

  lemma RowsOfSnoc(a: seq<Entry>, y: Entry)
    ensures multiset(RowsOf(a + [y])) == multiset(RowsOf(a)) + multiset{y.row}
  {
    RowsOfAppend(a, [y]);
    assert RowsOf([y]) == [y.row];
  }

  lemma {:induction false} InsertKeepsRows(s: seq<Entry>, x: Entry, dir: Direction, key: string,
                                           lc: (string, string) -> int)
    ensures multiset(RowsOf(Insert(s, x, dir, key, lc))) == multiset(RowsOf(s)) + multiset{x.row}
    decreases |s|
  {
    if s == [] {
      assert RowsOf([x]) == [x.row];
    } else {
      var last, s' := s[|s| - 1], s[..|s| - 1];
      assert s == s' + [last];
      RowsOfSnoc(s', last);
      if CompareCells(dir, Cell(x, key), Cell(last, key), lc) < 0 {
        InsertKeepsRows(s', x, dir, key, lc);
        RowsOfSnoc(Insert(s', x, dir, key, lc), last);
      } else {
        RowsOfSnoc(s, x);
      }
    }
  }

  lemma {:induction false} SortKeepsRows(entries: seq<Entry>, dir: Direction, key: string,
                                         lc: (string, string) -> int)
    ensures multiset(RowsOf(SortEntries(entries, dir, key, lc))) == multiset(RowsOf(entries))
    decreases |entries|
  {
    if entries != [] {
      var init, x := entries[..|entries| - 1], entries[|entries| - 1];
      var sortedInit := SortEntries(init, dir, key, lc);
      assert SortEntries(entries, dir, key, lc) == Insert(sortedInit, x, dir, key, lc);
      assert multiset(RowsOf(Insert(sortedInit, x, dir, key, lc)))
             == multiset(RowsOf(sortedInit)) + multiset{x.row} by {
        InsertKeepsRows(sortedInit, x, dir, key, lc);
      }
      assert multiset(RowsOf(sortedInit)) == multiset(RowsOf(init)) by {
        SortKeepsRows(init, dir, key, lc);
      }
      assert multiset(RowsOf(entries)) == multiset(RowsOf(init)) + multiset{x.row} by {
        assert entries == init + [x];
        RowsOfSnoc(init, x);
      }
    }
  }

  /** Every displayed row is the row stored at its recorded position. */
  predicate TagsMatch(entries: seq<Entry>, rows: seq<Row>)
  {
    forall k | 0 <= k < |entries| :: entries[k].index < |rows| && rows[entries[k].index] == entries[k].row
  }

  lemma TagsMatchPermutation(entries: seq<Entry>, rows: seq<Row>)
    requires multiset(entries) == multiset(Tagged(rows))
    ensures TagsMatch(entries, rows)
  {
    forall k | 0 <= k < |entries|
      ensures entries[k].index < |rows| && rows[entries[k].index] == entries[k].row
    {
      assert entries[k] in multiset(Tagged(rows));
      var j :| 0 <= j < |rows| && Tagged(rows)[j] == entries[k];
    }
  }

  /** sortedRows is `rows` itself when no sort is active, and otherwise a
      permutation of it in which display position d shows the row stored
      at position DisplayOrder(...)[d].index. */
  lemma SortedRowsPermutes(rows: seq<Row>, config: SortConfig, lc: (string, string) -> int)
    ensures !Active(config) ==> SortedRows(rows, config, lc) == rows
    ensures multiset(SortedRows(rows, config, lc)) == multiset(rows)
    ensures TagsMatch(DisplayOrder(rows, config, lc), rows)
  {
    var order := DisplayOrder(rows, config, lc);
    if Active(config) {
      SortKeepsRows(Tagged(rows), config.direction.value, config.key.value, lc);
    }
    if Active(config) {
      SortPermutes(Tagged(rows), config.direction.value, config.key.value, lc);
    }
    TagsMatchPermutation(order, rows);
  }

  /** No null cell of the key column is displayed before a non-null one. */
  predicate NullsLast(entries: seq<Entry>, key: string)
  {
    forall i, j | 0 <= i < j < |entries| :: Cell(entries[i], key) == Null ==> Cell(entries[j], key) == Null
  }

  /** Every entry of an insertion is x or an entry of the sequence. */
  lemma InsertFrom(s: seq<Entry>, x: Entry, dir: Direction, key: string, lc: (string, string) -> int)
    ensures forall i | 0 <= i < |Insert(s, x, dir, key, lc)|
              :: Insert(s, x, dir, key, lc)[i] == x || Insert(s, x, dir, key, lc)[i] in s
  {
    var t := Insert(s, x, dir, key, lc);
    InsertPermutes(s, x, dir, key, lc);
    forall i | 0 <= i < |t| ensures t[i] == x || t[i] in s {
      assert t[i] in multiset(t);
    }
  }

  lemma NullsLastSnoc(t: seq<Entry>, y: Entry, key: string)
    requires NullsLast(t, key)
    requires forall i | 0 <= i < |t| :: Cell(t[i], key) == Null ==> Cell(y, key) == Null
    ensures NullsLast(t + [y], key)
  {
  }

  lemma {:induction false} InsertNullsLast(s: seq<Entry>, x: Entry, dir: Direction, key: string,
                                           lc: (string, string) -> int)
    requires NullsLast(s, key)
    ensures NullsLast(Insert(s, x, dir, key, lc), key)
    decreases |s|
  {
    if s != [] {
      var last := s[|s| - 1];
      var s' := s[..|s| - 1];
      if CompareCells(dir, Cell(x, key), Cell(last, key), lc) < 0 {
        InsertNullsLast(s', x, dir, key, lc);
        var t := Insert(s', x, dir, key, lc);
        assert Insert(s, x, dir, key, lc) == t + [last];
        InsertFrom(s', x, dir, key, lc);
        forall i | 0 <= i < |t| && Cell(t[i], key) == Null
          ensures Cell(last, key) == Null
        {
          if t[i] != x {
            assert t[i] in s';
            var k :| 0 <= k < |s'| && s'[k] == t[i];
            assert s[k] == t[i];
          }
        }
        NullsLastSnoc(t, last, key);
      } else {
        assert Insert(s, x, dir, key, lc) == s + [x];
        assert Cell(x, key) != Null ==> Cell(last, key) != Null;
        NullsLastSnoc(s, x, key);
      }
    }
  }

  lemma {:induction false} SortNullsLast(entries: seq<Entry>, dir: Direction, key: string,
                                         lc: (string, string) -> int)
    ensures NullsLast(SortEntries(entries, dir, key, lc), key)
    decreases |entries|
  {
    if entries != [] {
      SortNullsLast(entries[..|entries| - 1], dir, key, lc);
      InsertNullsLast(SortEntries(entries[..|entries| - 1], dir, key, lc), entries[|entries| - 1],
                      dir, key, lc);
    }
  }

  /** Entries whose key cell is null appear in the order of their positions. */
  predicate NullsInOrder(entries: seq<Entry>, key: string)
  {
    forall i, j | 0 <= i < j < |entries| && Cell(entries[i], key) == Null && Cell(entries[j], key) == Null
      :: entries[i].index < entries[j].index
  }

  lemma NullsInOrderSnoc(t: seq<Entry>, y: Entry, key: string)
    requires NullsInOrder(t, key)
    requires forall i | 0 <= i < |t| && Cell(t[i], key) == Null && Cell(y, key) == Null :: t[i].index < y.index
    ensures NullsInOrder(t + [y], key)
  {
  }

  /** An entry placed after all the others keeps the null entries in order:
      a null x never moves left, since the comparator answers 1 for it. */
  lemma {:induction false} InsertNullsInOrder(s: seq<Entry>, x: Entry, dir: Direction, key: string,
                                              lc: (string, string) -> int)
    requires NullsInOrder(s, key)
    requires forall k | 0 <= k < |s| :: s[k].index < x.index
    ensures NullsInOrder(Insert(s, x, dir, key, lc), key)
    decreases |s|
  {
    if s != [] {
      var last, s' := s[|s| - 1], s[..|s| - 1];
      if CompareCells(dir, Cell(x, key), Cell(last, key), lc) < 0 {
        InsertNullsInOrder(s', x, dir, key, lc);
        var t := Insert(s', x, dir, key, lc);
        assert Insert(s, x, dir, key, lc) == t + [last];
        InsertFrom(s', x, dir, key, lc);
        forall i | 0 <= i < |t| && Cell(t[i], key) == Null && Cell(last, key) == Null
          ensures t[i].index < last.index
        {
          assert t[i] != x;
          assert t[i] in s';
          var k :| 0 <= k < |s'| && s'[k] == t[i];
          assert s[k] == t[i];
        }
        NullsInOrderSnoc(t, last, key);
      } else {
        assert Insert(s, x, dir, key, lc) == s + [x];
        NullsInOrderSnoc(s, x, key);
      }
    }
  }

  predicate IndicesIncrease(entries: seq<Entry>)
  {
    forall i, j | 0 <= i < j < |entries| :: entries[i].index < entries[j].index
  }

  lemma {:induction false} SortNullsInOrder(entries: seq<Entry>, dir: Direction, key: string,
                                            lc: (string, string) -> int)
    requires IndicesIncrease(entries)
    ensures NullsInOrder(SortEntries(entries, dir, key, lc), key)
    decreases |entries|
  {
    if entries != [] {
      var init, x := entries[..|entries| - 1], entries[|entries| - 1];
      var sorted := SortEntries(init, dir, key, lc);
      SortNullsInOrder(init, dir, key, lc);
      SortPermutes(init, dir, key, lc);
      forall k | 0 <= k < |sorted| ensures sorted[k].index < x.index {
        assert sorted[k] in multiset(init);
        var m :| 0 <= m < |init| && init[m] == sorted[k];
        assert entries[m] == sorted[k];
      }
      InsertNullsInOrder(sorted, x, dir, key, lc);
    }
  }

  /** Any two non-null cells of the key column are displayed in comparator
      order. */
  predicate Ordered(entries: seq<Entry>, dir: Direction, key: string, lc: (string, string) -> int)
  {
    forall i, j | 0 <= i < j < |entries| && Cell(entries[i], key) != Null && Cell(entries[j], key) != Null
      :: CompareCells(dir, Cell(entries[i], key), Cell(entries[j], key), lc) <= 0
  }

  predicate AllSameKind(entries: seq<Entry>, key: string, numeric: bool)
  {
    forall k | 0 <= k < |entries| :: SameKind(numeric, Cell(entries[k], key))
  }

  lemma OrderedSnoc(t: seq<Entry>, y: Entry, dir: Direction, key: string, lc: (string, string) -> int)
    requires Ordered(t, dir, key, lc)
    requires forall i | 0 <= i < |t| && Cell(t[i], key) != Null && Cell(y, key) != Null
               :: CompareCells(dir, Cell(t[i], key), Cell(y, key), lc) <= 0
    ensures Ordered(t + [y], dir, key, lc)
  {
  }

  /** Where x moves past the last entry, the last entry stays in order
      after everything before it, x included. */
  lemma InsertOrderedPast(s: seq<Entry>, x: Entry, dir: Direction, key: string,
                          lc: (string, string) -> int)
    requires |s| > 0 && LocaleOrder(lc) && Ordered(s, dir, key, lc)
    requires CompareCells(dir, Cell(x, key), Cell(s[|s| - 1], key), lc) < 0
    requires Ordered(Insert(s[..|s| - 1], x, dir, key, lc), dir, key, lc)
    ensures Ordered(Insert(s, x, dir, key, lc), dir, key, lc)
  {
    var last := s[|s| - 1];
    var s' := s[..|s| - 1];
    var t := Insert(s', x, dir, key, lc);
    assert Insert(s, x, dir, key, lc) == t + [last];
    InsertFrom(s', x, dir, key, lc);
    forall i | 0 <= i < |t| && Cell(t[i], key) != Null && Cell(last, key) != Null
      ensures CompareCells(dir, Cell(t[i], key), Cell(last, key), lc) <= 0
    {
      if t[i] != x {
        assert t[i] in s';
        var k :| 0 <= k < |s'| && s'[k] == t[i];
        assert s[k] == t[i];
      }
    }
    OrderedSnoc(t, last, dir, key, lc);
  }

  /** Where x stays behind the last entry, it is in order after every entry. */
  lemma InsertOrderedBehind(s: seq<Entry>, x: Entry, dir: Direction, key: string,
                            lc: (string, string) -> int, numeric: bool)
    requires |s| > 0 && LocaleOrder(lc) && Ordered(s, dir, key, lc)
    requires AllSameKind(s, key, numeric) && SameKind(numeric, Cell(x, key))
    requires CompareCells(dir, Cell(x, key), Cell(s[|s| - 1], key), lc) >= 0
    ensures Ordered(Insert(s, x, dir, key, lc), dir, key, lc)
  {
    var last := s[|s| - 1];
    assert Insert(s, x, dir, key, lc) == s + [x];
    if Cell(last, key) != Null && Cell(x, key) != Null {
      CompareFlip(dir, Cell(last, key), Cell(x, key), lc);
    }
    forall i | 0 <= i < |s| && Cell(s[i], key) != Null && Cell(x, key) != Null
      ensures CompareCells(dir, Cell(s[i], key), Cell(x, key), lc) <= 0
    {
      if i < |s| - 1 {
        CompareChain(dir, Cell(s[i], key), Cell(last, key), Cell(x, key), lc, numeric);
      }
    }
    OrderedSnoc(s, x, dir, key, lc);
  }

  lemma {:induction false} InsertOrdered(s: seq<Entry>, x: Entry, dir: Direction, key: string,
                                         lc: (string, string) -> int, numeric: bool)
    requires LocaleOrder(lc) && Ordered(s, dir, key, lc)
    requires AllSameKind(s, key, numeric) && SameKind(numeric, Cell(x, key))
    ensures Ordered(Insert(s, x, dir, key, lc), dir, key, lc)
    decreases |s|
  {
    if s != [] {
      if CompareCells(dir, Cell(x, key), Cell(s[|s| - 1], key), lc) < 0 {
        InsertOrdered(s[..|s| - 1], x, dir, key, lc, numeric);
        InsertOrderedPast(s, x, dir, key, lc);
      } else {
        InsertOrderedBehind(s, x, dir, key, lc, numeric);
      }
    }
  }

  lemma {:induction false} SortOrdered(entries: seq<Entry>, dir: Direction, key: string,
                                       lc: (string, string) -> int, numeric: bool)
    requires LocaleOrder(lc) && AllSameKind(entries, key, numeric)
    ensures Ordered(SortEntries(entries, dir, key, lc), dir, key, lc)
    decreases |entries|
  {
    if entries != [] {
      var init := entries[..|entries| - 1];
      var sorted := SortEntries(init, dir, key, lc);
      SortOrdered(init, dir, key, lc, numeric);
      forall k | 0 <= k < |sorted| ensures SameKind(numeric, Cell(sorted[k], key)) {
        SortPermutes(init, dir, key, lc);
        assert sorted[k] in multiset(init);
      }
      InsertOrdered(sorted, entries[|entries| - 1], dir, key, lc, numeric);
    }
  }

  predicate UniformColumn(rows: seq<Row>, key: string, numeric: bool)
  {
    forall k | 0 <= k < |rows| :: SameKind(numeric, CellAt(rows[k], key))
  }

  /** With a sort active, null cells of the sorted column come after all
      others, in both directions. */
  lemma SortedRowsNullsLast(rows: seq<Row>, config: SortConfig, lc: (string, string) -> int)
    requires Active(config)
    ensures var shown := SortedRows(rows, config, lc);
      forall i, j | 0 <= i < j < |shown| ::
        CellAt(shown[i], config.key.value) == Null ==> CellAt(shown[j], config.key.value) == Null
  {
    SortNullsLast(Tagged(rows), config.direction.value, config.key.value, lc);
  }

  /** With a sort active, rows whose cell in the sorted column is null are
      shown in the order they are stored, as the engine's stable sort
      leaves them. */
  lemma SortedRowsKeepNullOrder(rows: seq<Row>, config: SortConfig, lc: (string, string) -> int)
    requires Active(config)
    ensures var order := DisplayOrder(rows, config, lc);
      var key := config.key.value;
      forall i, j | 0 <= i < j < |order| && CellAt(order[i].row, key) == Null && CellAt(order[j].row, key) == Null
        :: order[i].index < order[j].index
  {
    SortNullsInOrder(Tagged(rows), config.direction.value, config.key.value, lc);
  }

  /** With a sort active on a column whose non-null cells are of one kind,
      the displayed cells follow the comparator; in particular numbers
      ascend for Asc and descend for Desc. */
  lemma SortedRowsOrdered(rows: seq<Row>, config: SortConfig, lc: (string, string) -> int, numeric: bool)
    requires Active(config) && LocaleOrder(lc) && UniformColumn(rows, config.key.value, numeric)
    ensures var shown := SortedRows(rows, config, lc);
      var key := config.key.value;
      && (forall i, j | 0 <= i < j < |shown| && CellAt(shown[i], key) != Null && CellAt(shown[j], key) != Null
            :: CompareCells(config.direction.value, CellAt(shown[i], key), CellAt(shown[j], key), lc) <= 0)
      && (forall i, j | 0 <= i < j < |shown| && CellAt(shown[i], key).Num? && CellAt(shown[j], key).Num?
            :: if config.direction == Some(Asc) then CellAt(shown[i], key).n <= CellAt(shown[j], key).n
               else CellAt(shown[j], key).n <= CellAt(shown[i], key).n)
  {
    var key, dir := config.key.value, config.direction.value;
    SortOrdered(Tagged(rows), dir, key, lc, numeric);
  }

  // ---------------------------------------------------------------------------
  // Editing one cell and deleting one row
  // ---------------------------------------------------------------------------

  /** `updatedRows[rowIndex][columnKey] = newValue` on a copy of the rows. */
  function WithCell(rows: seq<Row>, index: nat, key: string, value: JsValue): (r: seq<Row>)
    requires index < |rows|
    ensures |r| == |rows|
    ensures forall k | 0 <= k < |rows| && k != index :: r[k] == rows[k]
    ensures CellAt(r[index], key) == value
    ensures forall other | other != key :: CellAt(r[index], other) == CellAt(rows[index], other)
  {
    rows[index := rows[index][key := value]]
  }

  /** `rows.filter((_, idx) => idx !== index)` */
  function RemoveAt(rows: seq<Row>, index: nat): (r: seq<Row>)
    ensures index < |rows| ==> |r| == |rows| - 1
    ensures index >= |rows| ==> r == rows
    ensures forall k | 0 <= k < |r| && k < index :: r[k] == rows[k]
    ensures forall k | index <= k < |r| :: r[k] == rows[k + 1]
  {
    if index < |rows| then rows[..index] + rows[index + 1..] else rows
  }

  /** Putting the removed row back at its position restores the rows. */
  lemma RemoveAtInverse(rows: seq<Row>, index: nat)
    requires index < |rows|
    ensures RemoveAt(rows, index)[..index] + [rows[index]] + RemoveAt(rows, index)[index..] == rows
  {
    var r := RemoveAt(rows, index);
    assert r[..index] == rows[..index];
    assert r[index..] == rows[index + 1..];
  }

  /** `table.replace(/"/g, '').split('.')`: the schema and the table name
      (undefined when there is no '.'). */
  function ParseTableName(table: string): (r: (string, JsValue))
    ensures '.' !in r.0 && '"' !in r.0
    ensures r.1.Undefined? <==> '.' !in RemoveAll(table, '"')
    ensures r.1.Undefined? ==> r.0 == RemoveAll(table, '"')
    ensures r.1.Str? ==> '.' !in r.1.s && '"' !in r.1.s
    ensures r.1.Str? ==> r.0 + ['.'] + r.1.s <= RemoveAll(table, '"')
    ensures r.1.Str? ==> var clean := RemoveAll(table, '"');
      |r.0| + 1 + |r.1.s| == |clean| || clean[|r.0| + 1 + |r.1.s|] == '.'
  {
    var clean := RemoveAll(table, '"');
    var parts := Split(clean, '.');
    TableNameParts(clean);
    SplitKeepsAbsent(clean, '.', '"');
    if |parts| > 1 then
      SplitSecondEnds(clean, '.');
      (parts[0], Str(parts[1]))
    else (parts[0], Undefined)
  }

  /** Where the parts of a quote-free name begin and end. */
  lemma TableNameParts(clean: string)
    ensures var parts := Split(clean, '.');
      && parts[0] <= clean
      && (|parts| == 1 <==> '.' !in clean)
      && ('.' !in clean ==> parts[0] == clean)
      && (|parts| > 1 ==> parts[0] + ['.'] + parts[1] <= clean)
  {
    SplitSinglePart(clean, '.');
    SplitHead(clean, '.');
  }

  /** For names without '.' or '"', the qualified name the sidebar builds
      parses back into the schema and the table. */
  lemma ParseQualifiedName(schema: string, table: string)
    requires '.' !in schema && '"' !in schema && '.' !in table && '"' !in table
    ensures ParseTableName(DbPage.QualifiedName(schema, table)) == (schema, Str(table))
  {
    UnquoteQualifiedName(schema, table);
    SplitAfterFirst(schema, table, '.');
    SplitNoSeparator(table, '.');
  }

  lemma UnquoteQualifiedName(schema: string, table: string)
    requires '"' !in schema && '"' !in table
    ensures RemoveAll(DbPage.QualifiedName(schema, table), '"') == schema + ['.'] + table
  {
    var tail := table + ['"'];
    var quoted := ['"'] + tail;
    var dotted := ['.'] + quoted;
    assert DbPage.QualifiedName(schema, table) == schema + dotted;
    RemoveAllAppend(table, ['"'], '"');
    RemoveAllCons('"', [], '"');
    assert RemoveAll(tail, '"') == table;
    RemoveAllCons('"', tail, '"');
    RemoveAllCons('.', quoted, '"');
    RemoveAllAppend(schema, dotted, '"');
  }

  // ---------------------------------------------------------------------------
  // The component
  // ---------------------------------------------------------------------------

  datatype ContextMenu = ContextMenu(visible: bool, cellValue: JsValue, rowIndex: Option<nat>,
                                     columnKey: Option<string>)

  datatype EditModal = EditModal(visible: bool, rowIndex: Option<nat>, columnKey: Option<string>,
                                 newValue: JsValue)

  const ClosedModal := EditModal(false, None, None, Str(""))

  /** How a request to the backend ended: an ok answer, an answer that is not
      ok with the `error` field of its body, or an exception. */
  datatype Outcome = Succeeded | Rejected(error: JsValue) | Thrown(message: string)

  /** The body of POST /api/editRow and /api/deleteRow; `updates` is empty
      for a delete. */
  datatype RowRequest = RowRequest(connectionString: JsValue, schema: string, table: JsValue,
                                   primaryKey: string, primaryKeyValue: JsValue,
                                   updates: map<string, JsValue>)

  /** A null column key becomes the property name "null". */
  function PropertyName(key: Option<string>): string
  {
    match key
    case Some(k) => k
    case None => "null"
  }

  /** The alert after a request: none on success; the answer's `error`
      field, or "Unknown error" when it is falsy; the exception's message. */
  function FailureAlert(outcome: Outcome): (r: Option<string>)
    ensures r.None? <==> outcome.Succeeded?
    ensures outcome.Rejected? && Truthy(outcome.error) ==> r == Some("Error: " + ToText(outcome.error))
    ensures outcome.Rejected? && !Truthy(outcome.error) ==> r == Some("Error: Unknown error")
    ensures outcome.Thrown? ==> r == Some("Fetch error: " + outcome.message)
  {
    match outcome
    case Succeeded => None
    case Rejected(error) =>
      assert "Error: " + "Unknown error" == "Error: Unknown error";
      Some("Error: " + (if Truthy(error) then ToText(error) else "Unknown error"))
    case Thrown(message) => Some("Fetch error: " + message)
  }

  class ContentTable {
    const table: string
    var connectionString: JsValue
    var rows: seq<Row>
    var contextMenu: ContextMenu
    var sortConfig: SortConfig
    var editModal: EditModal

    constructor (table: string)
      ensures this.table == table && connectionString == Null && rows == []
      ensures contextMenu == ContextMenu(false, Str(""), None, None)
      ensures sortConfig == Unsorted && editModal == ClosedModal
    {
      this.table := table;
      connectionString := Null;
      rows := [];
      contextMenu := ContextMenu(false, Str(""), None, None);
      sortConfig := Unsorted;
      editModal := ClosedModal;
    }

    /** The answer to load-data: the saved connection URL is taken when it
        is truthy. */
    method OnLoadData(connectUrl: JsValue)
      modifies this
      ensures Truthy(connectUrl) ==> connectionString == connectUrl
      ensures !Truthy(connectUrl) ==> connectionString == old(connectionString)
      ensures rows == old(rows) && sortConfig == old(sortConfig)
      ensures contextMenu == old(contextMenu) && editModal == old(editModal)
    {
      if Truthy(connectUrl) {
        connectionString := connectUrl;
      }
    }

    /** The body of POST /api/getTableValues, or None when there is no
        connection string or no table yet. */
    method RowsRequest() returns (body: Option<(JsValue, string, JsValue)>)
      ensures body.None? <==> !Truthy(connectionString) || table == ""
      ensures body.Some? ==> body.value == (connectionString, ParseTableName(table).0, ParseTableName(table).1)
    {
      if !Truthy(connectionString) || table == "" {
        return None;
      }
      var (schema, tableName) := ParseTableName(table);
      body := Some((connectionString, schema, tableName));
    }

    /** The answer to getTableValues: its rows replace the shown ones; a
        failed request keeps the rows there were. */
    method OnRows(answer: Option<seq<Row>>)
      modifies this
      ensures answer.Some? ==> rows == answer.value
      ensures answer.None? ==> rows == old(rows)
      ensures connectionString == old(connectionString) && sortConfig == old(sortConfig)
      ensures contextMenu == old(contextMenu) && editModal == old(editModal)
    {
      if answer.Some? {
        rows := answer.value;
      }
    }

    method HandleSort(key: string)
      modifies this
      ensures sortConfig == NextSort(old(sortConfig), key)
      ensures rows == old(rows) && contextMenu == old(contextMenu) && editModal == old(editModal)
      ensures connectionString == old(connectionString)
    {
      sortConfig := NextSort(sortConfig, key);
    }

    /** The rows in display order; `rows` itself is not reordered. */
    method SortedRowsNow(lc: (string, string) -> int) returns (shown: seq<Row>)
      ensures shown == SortedRows(rows, sortConfig, lc)
    {
      if !Active(sortConfig) {
        return RowsOf(Tagged(rows));
      }
      var dir, key := sortConfig.direction.value, sortConfig.key.value;
      var order: seq<Entry> := [];
      var i := 0;
      while i < |rows|
        invariant 0 <= i <= |rows|
        invariant order == SortEntries(Tagged(rows)[..i], dir, key, lc)
      {
        SortEntriesStep(Tagged(rows), i, dir, key, lc);
        order := Insert(order, Entry(i, rows[i]), dir, key, lc);
        i := i + 1;
      }
      assert Tagged(rows)[..i] == Tagged(rows);
      shown := RowsOf(order);
    }

    /** The context menu of the cell at display position displayIndex. The
        position is translated to the row's place in `rows`, which is what
        the edit and delete actions index. */
    method HandleRightClick(displayIndex: nat, columnKey: string, lc: (string, string) -> int)
      requires displayIndex < |rows|
      modifies this
      ensures rows == old(rows) && sortConfig == old(sortConfig) && editModal == old(editModal)
      ensures connectionString == old(connectionString)
      ensures contextMenu.visible && contextMenu.columnKey == Some(columnKey)
      ensures contextMenu.rowIndex == Some(DisplayOrder(rows, sortConfig, lc)[displayIndex].index)
      ensures contextMenu.cellValue == CellAt(SortedRows(rows, sortConfig, lc)[displayIndex], columnKey)
    {
      SortedRowsPermutes(rows, sortConfig, lc);
      var entry := DisplayOrder(rows, sortConfig, lc)[displayIndex];
      contextMenu := ContextMenu(true, CellAt(entry.row, columnKey), Some(entry.index), Some(columnKey));
    }

    /** Copy Value: the text handed to the clipboard; the menu closes. */
    method HandleCopy() returns (copied: JsValue)
      modifies this
      ensures copied == old(contextMenu).cellValue
      ensures contextMenu == old(contextMenu).(visible := false)
      ensures rows == old(rows) && sortConfig == old(sortConfig) && editModal == old(editModal)
      ensures connectionString == old(connectionString)
    {
      copied := contextMenu.cellValue;
      contextMenu := contextMenu.(visible := false);
    }

    /** Edit Value: the modal opens on the menu's cell with its value, or the
        empty string for null and undefined; the menu closes. */
    method HandleOpenEditModal()
      modifies this
      ensures editModal.visible
      ensures editModal.rowIndex == old(contextMenu).rowIndex
      ensures editModal.columnKey == old(contextMenu).columnKey
      ensures old(contextMenu).cellValue in {Null, Undefined} ==> editModal.newValue == Str("")
      ensures old(contextMenu).cellValue !in {Null, Undefined} ==> editModal.newValue == old(contextMenu).cellValue
      ensures contextMenu == old(contextMenu).(visible := false)
      ensures rows == old(rows) && sortConfig == old(sortConfig)
      ensures connectionString == old(connectionString)
    {
      var value := if contextMenu.cellValue == Null || contextMenu.cellValue == Undefined then Str("")
                   else contextMenu.cellValue;
      editModal := EditModal(true, contextMenu.rowIndex, contextMenu.columnKey, value);
      contextMenu := contextMenu.(visible := false);
    }

    method HandleCancelEdit()
      modifies this
      ensures editModal == ClosedModal
      ensures rows == old(rows) && sortConfig == old(sortConfig) && contextMenu == old(contextMenu)
      ensures connectionString == old(connectionString)
    {
      editModal := ClosedModal;
    }

    method HandleChangeEditValue(text: string)
      modifies this
      ensures editModal == old(editModal).(newValue := Str(text))
      ensures rows == old(rows) && sortConfig == old(sortConfig) && contextMenu == old(contextMenu)
      ensures connectionString == old(connectionString)
    {
      editModal := editModal.(newValue := Str(text));
    }

    /** A click anywhere closes an open context menu. */
    method HandleClickOutside()
      modifies this
      ensures contextMenu == old(contextMenu).(visible := false)
      ensures rows == old(rows) && sortConfig == old(sortConfig) && editModal == old(editModal)
      ensures connectionString == old(connectionString)
    {
      if contextMenu.visible {
        contextMenu := contextMenu.(visible := false);
      }
    }

    /** The row an action targets, if `rows` has one at that position. */
    function Target(rowIndex: Option<nat>): Option<nat>
      reads this
    {
      if rowIndex.Some? && rowIndex.value < |rows| then rowIndex else None
    }

    function RequestFor(index: nat, updates: map<string, JsValue>): RowRequest
      reads this
      requires index < |rows|
    {
      var (schema, tableName) := ParseTableName(table);
      RowRequest(connectionString, schema, tableName, "id", CellAt(rows[index], "id"), updates)
    }

    /** Save: nothing happens without a row at the modal's position; else
        the new value is sent for that row (keyed by its id), and only on
        success exactly that cell changes and the modal closes; a failed
        fetch also closes the modal. */
    method HandleSaveEdit(outcome: Outcome) returns (request: Option<RowRequest>, alert: Option<string>)
      modifies this
      ensures old(Target(editModal.rowIndex)).None? ==>
        request.None? && alert.None? && rows == old(rows) && editModal == old(editModal)
      ensures old(Target(editModal.rowIndex)).Some? ==>
        var index := old(editModal).rowIndex.value;
        && request == Some(old(RequestFor(index, map[PropertyName(editModal.columnKey) := editModal.newValue])))
        && alert == FailureAlert(outcome)
        && (outcome.Succeeded? ==>
              rows == WithCell(old(rows), index, PropertyName(old(editModal).columnKey), old(editModal).newValue))
        && (!outcome.Succeeded? ==> rows == old(rows))
        && (outcome.Rejected? ==> editModal == old(editModal))
        && (!outcome.Rejected? ==> editModal == ClosedModal)
      ensures sortConfig == old(sortConfig) && contextMenu == old(contextMenu)
      ensures connectionString == old(connectionString)
    {
      if Target(editModal.rowIndex).None? {
        return None, None;
      }
      var index := editModal.rowIndex.value;
      var key := PropertyName(editModal.columnKey);
      request := Some(RequestFor(index, map[key := editModal.newValue]));
      alert := FailureAlert(outcome);
      match outcome {
        case Succeeded =>
          rows := WithCell(rows, index, key, editModal.newValue);
          editModal := ClosedModal;
        case Rejected(_) =>
        case Thrown(_) =>
          editModal := ClosedModal;
      }
    }

    /** Delete Row: nothing happens without a row at the menu's position;
        else that row's id is sent, and only on success exactly that
        position is removed; the menu closes unless the answer was a
        refusal. */
    method HandleDeleteRow(outcome: Outcome) returns (request: Option<RowRequest>, alert: Option<string>)
      modifies this
      ensures old(Target(contextMenu.rowIndex)).None? ==>
        request.None? && alert.None? && rows == old(rows) && contextMenu == old(contextMenu)
      ensures old(Target(contextMenu.rowIndex)).Some? ==>
        var index := old(contextMenu).rowIndex.value;
        && request == Some(old(RequestFor(index, map[])))
        && alert == FailureAlert(outcome)
        && (outcome.Succeeded? ==> rows == RemoveAt(old(rows), index))
        && (!outcome.Succeeded? ==> rows == old(rows))
        && (outcome.Rejected? ==> contextMenu == old(contextMenu))
        && (!outcome.Rejected? ==> contextMenu == old(contextMenu).(visible := false))
      ensures sortConfig == old(sortConfig) && editModal == old(editModal)
      ensures connectionString == old(connectionString)
    {
      if Target(contextMenu.rowIndex).None? {
        return None, None;
      }
      var index := contextMenu.rowIndex.value;
      request := Some(RequestFor(index, map[]));
      alert := FailureAlert(outcome);
      match outcome {
        case Succeeded =>
          rows := RemoveAt(rows, index);
          contextMenu := contextMenu.(visible := false);
        case Rejected(_) =>
        case Thrown(_) =>
          contextMenu := contextMenu.(visible := false);
      }
    }
  }

  /** The context menu as written: the display position itself is stored
      and later used as a position in `rows`. */
  function MenuRowAsWritten(displayIndex: nat): Option<nat>
  {
    Some(displayIndex)
  }

  /** Two entries the comparator puts the other way round are swapped. */
  lemma SortTwo(e0: Entry, e1: Entry, dir: Direction, key: string, lc: (string, string) -> int)
    requires CompareCells(dir, Cell(e1, key), Cell(e0, key), lc) < 0
    ensures SortEntries([e0, e1], dir, key, lc) == [e1, e0]
  {
    assert [e0, e1][..1] == [e0];
    assert SortEntries([e0], dir, key, lc) == [e0] by {
      assert [e0][..0] == [];
    }
    assert Insert([e0], e1, dir, key, lc) == Insert([], e1, dir, key, lc) + [e0] by {
      assert [e0][..0] == [];
    }
  }

  /** Two rows whose key cells compare the other way round are shown swapped. */
  lemma SortedTwoRows(r0: Row, r1: Row, key: string, lc: (string, string) -> int)
    requires key != "" && CompareCells(Asc, CellAt(r1, key), CellAt(r0, key), lc) < 0
    ensures SortedRows([r0, r1], SortConfig(Some(key), Some(Asc)), lc) == [r1, r0]
  {
    var e0, e1 := Entry(0, r0), Entry(1, r1);
    assert Tagged([r0, r1]) == [e0, e1];
    SortTwo(e0, e1, Asc, key, lc);
    assert RowsOf([e1, e0]) == [r1, r0];
  }

  /** With the rows sorted, the as-written menu targets a row other than the
      one clicked: the rows [{id: 2}, {id: 1}] sorted ascending by id show
      {id: 1} first, but position 0 of `rows` holds {id: 2}, so deleting
      the first displayed row removes {id: 2} and keeps {id: 1}. */
  lemma DisplayIndexMismatch(lc: (string, string) -> int)
    ensures var rows := [map["id" := Num(2)], map["id" := Num(1)]];
      var config := SortConfig(Some("id"), Some(Asc));
      && SortedRows(rows, config, lc)[0] == map["id" := Num(1)]
      && RemoveAt(rows, MenuRowAsWritten(0).value) == [map["id" := Num(1)]]
  {
    var rows := [map["id" := Num(2)], map["id" := Num(1)]];
    var config := SortConfig(Some("id"), Some(Asc));
    assert CellAt(rows[0], "id") == Num(2) && CellAt(rows[1], "id") == Num(1);
    SortedTwoRows(rows[0], rows[1], "id", lc);
    assert RemoveAt(rows, 0) == rows[1..];
  }

  /** As corrected, the menu targets the row that was clicked: the row stored
      at the recorded position is the row displayed at the clicked one, so a
      delete removes that row and an edit changes that row. */
  lemma MenuTargetsDisplayedRow(rows: seq<Row>, config: SortConfig, lc: (string, string) -> int,
                                displayIndex: nat)
    requires displayIndex < |rows|
    ensures var stored := DisplayOrder(rows, config, lc)[displayIndex].index;
      stored < |rows| && rows[stored] == SortedRows(rows, config, lc)[displayIndex]
  {
    SortedRowsPermutes(rows, config, lc);
  }
}
