/** `04_common/02/01/mars_base_inventory.py`: the inventory CSV is read into
    rows of five stripped columns, the data rows are ordered by flammability,
    most flammable first, and the rows at or above the danger threshold are
    kept. */
module BaseInventory {
  import opened Wrappers
  import opened Text
  import opened Seqs
  import opened StableSort

  type Row = seq<string>
  type Table = seq<Row>

  const ColumnCount: nat := 5
  const FlammabilityColumn: string := "Flammability"
  const DangerThreshold: real := 0.7

  /** Why `sort_list` or the danger filter raise: an empty list cannot be
      unpacked into a header, the header names no `Flammability` column, or
      some data row has no number in that column. */
  datatype InventoryError = EmptyList | MissingFlammability | BadValue

  /** The lines of `raw.splitlines()` that are not blank, each stripped. */
  function KeptLines(lines: seq<string>): seq<string> {
    if lines == [] then []
    else
      var init, line := lines[..|lines| - 1], Strip(lines[|lines| - 1]);
      KeptLines(init) + (if line == [] then [] else [line])
  }

  lemma KeptLinesPrefix(lines: seq<string>, i: nat)
    requires i < |lines|
    ensures KeptLines(lines[..i + 1]) ==
      KeptLines(lines[..i]) + (if Strip(lines[i]) == [] then [] else [Strip(lines[i])])
  {
    assert lines[..i + 1][..i] == lines[..i];
  }

  /** The kept lines of a prefix are a prefix of the kept lines. */
  lemma {:induction false} KeptLinesMonotone(lines: seq<string>, i: nat)
    requires i <= |lines|
    ensures KeptLines(lines[..i]) <= KeptLines(lines)
    decreases |lines| - i
  {
    if i < |lines| {
      KeptLinesMonotone(lines, i + 1);
      KeptLinesPrefix(lines, i);
    } else {
      assert lines[..i] == lines;
    }
  }

  /** A non-blank line is kept, stripped. */
  lemma KeptLinesHas(lines: seq<string>, i: nat)
    requires i < |lines| && Strip(lines[i]) != []
    ensures Strip(lines[i]) in KeptLines(lines)
  {
    KeptLinesPrefix(lines, i);
    KeptLinesMonotone(lines, i + 1);
    var k := KeptLines(lines[..i + 1]);
    assert k[|k| - 1] == Strip(lines[i]);
  }

  /** One kept line for each line that is not blank: the row count of the
      result is the number of non-blank lines. */
  lemma {:induction false} KeptLinesCount(lines: seq<string>)
    ensures |KeptLines(lines)| == |Filter(lines, IsNonBlank)|
  {
    if lines != [] {
      KeptLinesCount(lines[..|lines| - 1]);
    }
  }

  /** `[col.strip() for col in line.split(',')]`. */
  function Columns(line: string): Row {
    var parts := SplitOn(line, ',');
    seq(|parts|, i requires 0 <= i < |parts| => Strip(parts[i]))
  }

  predicate AllFiveColumns(kept: seq<string>) {
    forall l | l in kept :: |Columns(l)| == ColumnCount
  }

  /** The table read from the kept lines, one row per line. */
  function Rows(kept: seq<string>): (t: Table)
    ensures |t| == |kept|
  {
    if kept == [] then [] else Rows(kept[..|kept| - 1]) + [Columns(kept[|kept| - 1])]
  }

  lemma RowsSnoc(kept: seq<string>, line: string)
    ensures Rows(kept + [line]) == Rows(kept) + [Columns(line)]
  {
    assert (kept + [line])[..|kept|] == kept;
  }

  lemma RowsAt(kept: seq<string>, i: nat)
    requires i < |kept|
    ensures Rows(kept)[i] == Columns(kept[i])
  {
    if i < |kept| - 1 {
      RowsAt(kept[..|kept| - 1], i);
    }
  }

  /** Each row of the table is the columns of its line, five of them. */
  lemma RowsHaveFiveColumns(kept: seq<string>)
    requires AllFiveColumns(kept)
    ensures forall i | 0 <= i < |kept| :: Rows(kept)[i] == Columns(kept[i]) && |Rows(kept)[i]| == ColumnCount
  {
    forall i | 0 <= i < |kept| ensures Rows(kept)[i] == Columns(kept[i]) && |Rows(kept)[i]| == ColumnCount {
      RowsAt(kept, i);
      assert kept[i] in kept;
    }
  }

  /** `raw_to_list`: `None` as soon as a non-blank line does not have five
      columns. */
  method RawToList(raw: string) returns (parsed: Option<Table>)
    ensures parsed.None? <==> !AllFiveColumns(KeptLines(SplitOn(raw, '\n')))
    ensures parsed.Some? ==> parsed.value == Rows(KeptLines(SplitOn(raw, '\n')))
  {
    var lines := SplitOn(raw, '\n');
    var rows: Table := [];
    for i := 0 to |lines|
      invariant AllFiveColumns(KeptLines(lines[..i]))
      invariant rows == Rows(KeptLines(lines[..i]))
    {
      KeptLinesPrefix(lines, i);
      var line := Strip(lines[i]);
      if line == [] {
        assert KeptLines(lines[..i + 1]) == KeptLines(lines[..i]);
        continue;
      }
      assert KeptLines(lines[..i + 1]) == KeptLines(lines[..i]) + [line];
      var cols := Columns(line);
      if |cols| != ColumnCount {
        KeptLinesHas(lines, i);
        return None;
      }
      RowsSnoc(KeptLines(lines[..i]), line);
      rows := rows + [cols];
    }
    assert lines[..|lines|] == lines;
    parsed := Some(rows);
  }

  /** `header.index(x)`: the position of the first occurrence, if any. */
  function FirstIndex(s: seq<string>, x: string): (r: Option<nat>)
    ensures r.None? <==> x !in s
    ensures r.Some? ==> r.value < |s| && s[r.value] == x && x !in s[..r.value]
  {
    if s == [] then None
    else if s[0] == x then Some(0)
    else
      var r := FirstIndex(s[1..], x);
      assert s[1..] == s[..][1..];
      if r.None? then None
      else
        assert s[..r.value + 1] == [s[0]] + s[1..][..r.value];
        Some(r.value + 1)
  }

  /** `float(row[idx])`, or `None` where indexing or the conversion raises;
      `toFloat` stands for Python's `float` on strings. */
  function Value(row: Row, idx: nat, toFloat: string -> Option<real>): Option<real> {
    if idx < |row| then toFloat(row[idx]) else None
  }

  predicate HasValues(data: Table, idx: nat, toFloat: string -> Option<real>) {
    forall row | row in data :: Value(row, idx, toFloat).Some?
  }

  /** The sort key `float(row[idx])`, for rows that have one. */
  function Key(idx: nat, toFloat: string -> Option<real>): Row -> real {
    (row: Row) => if Value(row, idx, toFloat).Some? then Value(row, idx, toFloat).value else 0.0
  }

  /** The column index `sort_list` and the danger filter read, or the error
      they raise before looking at the data. */
  function LocateFlammability(table: Table): (r: Result<nat, InventoryError>)
    ensures r == Failure(EmptyList) <==> table == []
    ensures r == Failure(MissingFlammability) <==> table != [] && FlammabilityColumn !in table[0]
    ensures r.Success? ==>
      r.value < |table[0]| && table[0][r.value] == FlammabilityColumn
      && FlammabilityColumn !in table[0][..r.value]
  {
    if table == [] then Failure(EmptyList)
    else
      match FirstIndex(table[0], FlammabilityColumn)
      case None => Failure(MissingFlammability)
      case Some(idx) => Success(idx)
  }

  /** The rows after the header all have a value in column `idx`, in
      descending order. */
  predicate DescendingValues(t: Table, idx: nat, toFloat: string -> Option<real>) {
    forall i, j | 1 <= i < j < |t| ::
      Value(t[i], idx, toFloat).Some? && Value(t[j], idx, toFloat).Some?
      && Value(t[i], idx, toFloat).value >= Value(t[j], idx, toFloat).value
  }

  /** The header followed by the data rows sorted by descending key: a
      permutation of the rows, in descending order of their values. */
  lemma SortedTable(header: Row, data: Table, idx: nat, toFloat: string -> Option<real>, t: Table)
    requires HasValues(data, idx, toFloat)
    requires t == [header] + SortDesc(data, Key(idx, toFloat))
    ensures |t| == |data| + 1 && t[0] == header && t[1..] == SortDesc(data, Key(idx, toFloat))
      && multiset(t[1..]) == multiset(data)
      && DescendingValues(t, idx, toFloat)
  {
    var sorted := SortDesc(data, Key(idx, toFloat));
    SortDescPermutes(data, Key(idx, toFloat));
    SortDescSorted(data, Key(idx, toFloat));
    assert |sorted| == |data| by {
      assert |multiset(sorted)| == |multiset(data)|;
    }
    forall row | row in sorted ensures Value(row, idx, toFloat).Some? {
      assert row in multiset(sorted);
    }
    assert t[1..] == sorted;
    forall i, j | 1 <= i < j < |t|
      ensures Value(t[i], idx, toFloat).Some? && Value(t[j], idx, toFloat).Some?
        && Value(t[i], idx, toFloat).value >= Value(t[j], idx, toFloat).value
    {
      assert t[i] == sorted[i - 1] && t[j] == sorted[j - 1];
      assert sorted[i - 1] in sorted && sorted[j - 1] in sorted;
    }
  }

  /** `sort_list`: the header, then the data rows by flammability, descending
      and stable. */
  function SortList(table: Table, toFloat: string -> Option<real>): (r: Result<Table, InventoryError>)
    ensures r.Failure? <==>
      LocateFlammability(table).Failure? || !HasValues(table[1..], LocateFlammability(table).value, toFloat)
    ensures r.Failure? && LocateFlammability(table).Failure? ==>
      r.error == LocateFlammability(table).error
    ensures r.Failure? && LocateFlammability(table).Success? ==> r.error == BadValue
    ensures r.Success? ==>
      var idx := LocateFlammability(table).value;
      |r.value| == |table| && r.value[0] == table[0]
      && multiset(r.value[1..]) == multiset(table[1..])
      && DescendingValues(r.value, idx, toFloat)
  {
    match LocateFlammability(table)
    case Failure(e) => Failure(e)
    case Success(idx) =>
      var header, data := table[0], table[1..];
      if !HasValues(data, idx, toFloat) then Failure(BadValue)
      else
        var t := [header] + SortDesc(data, Key(idx, toFloat));
        SortedTable(header, data, idx, toFloat, t);
        Success(t)
  }

  /** Rows with equal flammability keep their input order. */
  lemma SortListStable(table: Table, toFloat: string -> Option<real>, k: real)
    requires SortList(table, toFloat).Success?
    ensures var idx := LocateFlammability(table).value;
      Filter(SortList(table, toFloat).value[1..], KeyIs(Key(idx, toFloat), k))
        == Filter(table[1..], KeyIs(Key(idx, toFloat), k))
  {
    var idx := LocateFlammability(table).value;
    var t := SortList(table, toFloat).value;
    assert t[1..] == SortDesc(table[1..], Key(idx, toFloat));
    SortDescStable(table[1..], Key(idx, toFloat), k);
  }

  /** The rows `flammability_filtering_and_save` keeps. */
  function IsDangerous(idx: nat, toFloat: string -> Option<real>): Row -> bool {
    (row: Row) => Key(idx, toFloat)(row) >= DangerThreshold
  }

  /** The list `flammability_filtering_and_save` returns (and writes): the
      header, then the data rows whose flammability is at least 0.7, in
      order. */
  function FlammabilityFilter(table: Table, toFloat: string -> Option<real>): (r: Result<Table, InventoryError>)
    ensures r.Failure? <==>
      LocateFlammability(table).Failure? || !HasValues(table[1..], LocateFlammability(table).value, toFloat)
    ensures r.Failure? && LocateFlammability(table).Failure? ==>
      r.error == LocateFlammability(table).error
    ensures r.Failure? && LocateFlammability(table).Success? ==> r.error == BadValue
    ensures r.Success? ==>
      var idx := LocateFlammability(table).value;
      r.value != [] && r.value[0] == table[0]
      && (forall row :: row in r.value[1..] <==>
           row in table[1..] && Value(row, idx, toFloat).value >= DangerThreshold)
      && (forall row :: multiset(r.value[1..])[row] ==
           if Value(row, idx, toFloat).Some? && Value(row, idx, toFloat).value >= DangerThreshold
           then multiset(table[1..])[row] else 0)
  {
    match LocateFlammability(table)
    case Failure(e) => Failure(e)
    case Success(idx) =>
      var header, data := table[0], table[1..];
      if !HasValues(data, idx, toFloat) then Failure(BadValue)
      else
        var dangerRows := Filter(data, IsDangerous(idx, toFloat));
        FilterMembers(data, IsDangerous(idx, toFloat));
        FilterCount(data, IsDangerous(idx, toFloat));
        forall row
          ensures IsDangerous(idx, toFloat)(row) ==
            (Value(row, idx, toFloat).Some? && Value(row, idx, toFloat).value >= DangerThreshold)
        {
          assert Key(idx, toFloat)(row) == if Value(row, idx, toFloat).Some? then Value(row, idx, toFloat).value else 0.0;
        }
        forall row | row in data
          ensures IsDangerous(idx, toFloat)(row) == (Value(row, idx, toFloat).value >= DangerThreshold)
        {
          assert Key(idx, toFloat)(row) == Value(row, idx, toFloat).value;
        }
        var t := [header] + dangerRows;
        assert t[1..] == dangerRows;
        Success(t)
  }

  /** The danger rows keep their relative order: the filter of a table is
      the header and the filter of its data rows. */
  lemma FilterKeepsOrder(table: Table, toFloat: string -> Option<real>)
    requires LocateFlammability(table).Success?
    requires HasValues(table[1..], LocateFlammability(table).value, toFloat)
    ensures var idx := LocateFlammability(table).value;
      FlammabilityFilter(table, toFloat) == Success([table[0]] + Filter(table[1..], IsDangerous(idx, toFloat)))
  {
  }

  /** The filter of a table holding only its header is the header. */
  lemma FilterHeaderOnly(header: Row, toFloat: string -> Option<real>)
    requires FlammabilityColumn in header
    ensures FlammabilityFilter([header], toFloat) == Success([header])
  {
    var idx := LocateFlammability([header]).value;
    assert [header][0] == header && [header][1..] == [];
    FilterKeepsOrder([header], toFloat);
    assert Filter([header][1..], IsDangerous(idx, toFloat)) == [];
    assert [header] + [] == [header];
  }

  /** The danger rows keep their relative order: one more data row is
      appended to the filtered table exactly when it is dangerous. */
  lemma FilterSnoc(table: Table, row: Row, toFloat: string -> Option<real>)
    requires LocateFlammability(table).Success?
    requires var idx := LocateFlammability(table).value;
      HasValues(table[1..], idx, toFloat) && Value(row, idx, toFloat).Some?
    ensures var idx := LocateFlammability(table).value;
      FlammabilityFilter(table + [row], toFloat) == Success(FlammabilityFilter(table, toFloat).value
        + if Value(row, idx, toFloat).value >= DangerThreshold then [row] else [])
  {
    var idx := LocateFlammability(table).value;
    var p := IsDangerous(idx, toFloat);
    var t := table + [row];
    assert p(row) == (Value(row, idx, toFloat).value >= DangerThreshold) by {
      assert Key(idx, toFloat)(row) == Value(row, idx, toFloat).value;
    }
    SnocShape(table, row);
    assert HasValues(t[1..], idx, toFloat);
    var before := Filter(table[1..], p);
    var added := if p(row) then [row] else [];
    FilterKeepsOrder(table, toFloat);
    FilterKeepsOrder(t, toFloat);
    FilterSnocRow(table[1..], row, p);
    assert Filter(t[1..], p) == before + added;
    assert [table[0]] + (before + added) == ([table[0]] + before) + added;
  }

  lemma SnocShape(table: Table, row: Row)
    requires table != []
    ensures (table + [row])[0] == table[0] && (table + [row])[1..] == table[1..] + [row]
    ensures LocateFlammability(table + [row]) == LocateFlammability(table)
  {
    assert (table + [row])[0] == table[0];
  }

  lemma FilterSnocRow(data: Table, row: Row, p: Row -> bool)
    ensures Filter(data + [row], p) == Filter(data, p) + if p(row) then [row] else []
  {
    assert (data + [row])[..|data|] == data;
  }

  /** A sorted table has the same header, column index and values. */
  lemma SortListShape(table: Table, toFloat: string -> Option<real>)
    requires SortList(table, toFloat).Success?
    ensures var sorted := SortList(table, toFloat).value;
      var idx := LocateFlammability(table).value;
      sorted == [table[0]] + SortDesc(table[1..], Key(idx, toFloat))
      && LocateFlammability(sorted) == LocateFlammability(table)
      && HasValues(sorted[1..], idx, toFloat)
  {
    var idx := LocateFlammability(table).value;
    var sorted := SortList(table, toFloat).value;
    var s := SortDesc(table[1..], Key(idx, toFloat));
    assert sorted == [table[0]] + s;
    assert sorted[0] == table[0] && sorted[1..] == s;
    forall row | row in s ensures Value(row, idx, toFloat).Some? {
      assert row in multiset(s);
      SortDescPermutes(table[1..], Key(idx, toFloat));
    }
  }

  /** The pipeline of `main`: filtering the sorted table gives the danger
      rows of the original, each as often, most flammable first. */
  lemma SortThenFilter(table: Table, toFloat: string -> Option<real>)
    requires SortList(table, toFloat).Success?
    ensures var sorted := SortList(table, toFloat).value;
      var idx := LocateFlammability(table).value;
      var danger := FlammabilityFilter(sorted, toFloat);
      danger.Success? && danger.value[0] == table[0]
      && multiset(danger.value[1..]) == multiset(Filter(table[1..], IsDangerous(idx, toFloat)))
      && SortedDesc(danger.value[1..], Key(idx, toFloat))
  {
    var idx := LocateFlammability(table).value;
    var sorted := SortList(table, toFloat).value;
    var s := SortDesc(table[1..], Key(idx, toFloat));
    var p := IsDangerous(idx, toFloat);
    SortListShape(table, toFloat);
    FilterKeepsOrder(sorted, toFloat);
    assert sorted[1..] == s;
    var danger := [table[0]] + Filter(s, p);
    assert danger[1..] == Filter(s, p);
    SortDescPermutes(table[1..], Key(idx, toFloat));
    FilterSameMultiset(s, table[1..], p);
    SortDescSorted(table[1..], Key(idx, toFloat));
    FilteredSorted(s, Key(idx, toFloat), p);
  }

  /** Filtering keeps a descending order. */
  lemma {:induction false} FilteredSorted(s: Table, key: Row -> real, p: Row -> bool)
    requires SortedDesc(s, key)
    ensures SortedDesc(Filter(s, p), key)
  {
    if s != [] {
      var init := s[..|s| - 1];
      assert SortedDesc(init, key);
      FilteredSorted(init, key, p);
      FilterMembers(init, p);
      var f := Filter(s, p);
      if p(s[|s| - 1]) {
        forall i, j | 0 <= i < j < |f| ensures key(f[i]) >= key(f[j]) {
          if j == |f| - 1 {
            assert f[i] in Filter(init, p);
          }
        }
      }
    }
  }
}
