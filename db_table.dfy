/** A db61b table: a name, distinct column titles and a list of distinct
    rows; and the STL-style iterator over its rows. */
module DbTables {
  import opened Common
  import opened DbRows

  /** No title occurs twice. */
  predicate DistinctTitles(titles: seq<string>)
  {
    forall i, j :: 0 <= i < j < |titles| ==> titles[i] != titles[j]
  }

  /** The position of the first occurrence of title, or -1. */
  function TitleIndex(titles: seq<string>, title: string): (i: int)
    ensures -1 <= i < |titles|
    ensures i == -1 <==> title !in titles
    ensures i >= 0 ==> titles[i] == title && forall j :: 0 <= j < i ==> titles[j] != title
  {
    if titles == [] then -1
    else if titles[0] == title then 0
    else
      var k := TitleIndex(titles[1..], title);
      if k == -1 then -1 else k + 1
  }

  /** With distinct titles, the index of the k-th title is k. */
  lemma TitleIndexOfTitle(titles: seq<string>, k: nat)
    requires DistinctTitles(titles) && k < |titles|
    ensures TitleIndex(titles, titles[k]) == k
  {
    var i := TitleIndex(titles, titles[k]);
    assert 0 <= i ==> titles[i] == titles[k];
  }

  /** The message of the constructor's DBException. */
  function DuplicateTitleMessage(t: string): string
  {
    "non-distinct column title (" + t + "), table not created."
  }

  /** The message of add's DBException. */
  function RowLengthMessage(rowSize: nat, columns: nat): string
  {
    "row length (" + NatToString(rowSize) + ") and number of columns (" + NatToString(columns) + ") unequal."
  }

  /** The constructor's nested loops: the title at the smallest i that has
      an equal title at some j > i, or None when the titles are distinct. */
  method FirstDuplicate(titles: seq<string>) returns (d: Option<nat>)
    ensures d.None? <==> DistinctTitles(titles)
    ensures d.Some? ==> d.value < |titles|
                        && (exists j :: d.value < j < |titles| && titles[j] == titles[d.value])
                        && (forall i, j :: 0 <= i < d.value && i < j < |titles| ==> titles[i] != titles[j])
  {
    for i := 0 to |titles|
      invariant forall i', j :: 0 <= i' < i && i' < j < |titles| ==> titles[i'] != titles[j]
    {
      for j := i + 1 to |titles|
        invariant forall j' :: i < j' < j ==> titles[i] != titles[j']
      {
        if titles[i] == titles[j] {
          return Some(i);
        }
      }
    }
    return None;
  }

  class Table {
    const name: string
    const titles: seq<string>
    var rows: seq<Row>

    /** Distinct titles, rows as wide as the titles, no row twice. */
    ghost predicate Valid()
      reads this
    {
      && DistinctTitles(titles)
      && (forall r :: r in rows ==> DbRows.Size(r) == |titles|)
      && (forall i, j :: 0 <= i < j < |rows| ==> rows[i] != rows[j])
    }

    constructor Init(name: string, titles: seq<string>)
      requires DistinctTitles(titles)
      ensures Valid() && this.name == name && this.titles == titles && rows == []
    {
      this.name := name;
      this.titles := titles;
      rows := [];
    }

    /** new Table(name, columnTitles): a DBException naming the first
        repeated title, or an empty table. */
    static method Create(name: string, titles: seq<string>) returns (r: Result<Table>)
      ensures r.Err? <==> !DistinctTitles(titles)
      ensures r.Err? ==> exists i, j :: && 0 <= i < j < |titles| && titles[i] == titles[j]
                                          && r.msg == DuplicateTitleMessage(titles[i])
                                          && forall i', j' :: 0 <= i' < i && i' < j' < |titles| ==> titles[i'] != titles[j']
      ensures r.Ok? ==> fresh(r.value) && r.value.Valid() && r.value.name == name
                        && r.value.titles == titles && r.value.rows == []
    {
      var d := FirstDuplicate(titles);
      if d.Some? {
        return Err(DuplicateTitleMessage(titles[d.value]));
      }
      var t := new Table.Init(name, titles);
      r := Ok(t);
    }

    /** numColumns() */
    function NumColumns(): (n: nat)
      ensures n == |titles|
    {
      |titles|
    }

    /** title(k), for 0 <= k < numColumns() as its callers promise. */
    function Title(k: nat): (t: string)
      requires k < NumColumns()
      ensures t == titles[k] && t in titles
    {
      titles[k]
    }

    /** size() */
    function Size(): (n: nat)
      reads this
      ensures n == |rows|
    {
      |rows|
    }

    /** columnIndex(title): the loop over the titles. */
    method ColumnIndex(title: string) returns (i: int)
      ensures i == TitleIndex(titles, title)
    {
      for k := 0 to |titles|
        invariant forall j :: 0 <= j < k ==> titles[j] != title
      {
        if titles[k] == title {
          return k;
        }
      }
      return -1;
    }

    /** add(row): false, with nothing changed, when an equal row is there
        already; a DBException, with nothing changed, when the row's width
        is not the number of columns; otherwise the row is appended. The
        check for an equal row comes first. */
    method Add(row: Row) returns (r: Result<bool>)
      requires Valid()
      modifies this
      ensures Valid()
      ensures row in old(rows) ==> r == Ok(false) && rows == old(rows)
      ensures row !in old(rows) && DbRows.Size(row) != |titles| ==>
                r == Err(RowLengthMessage(DbRows.Size(row), |titles|)) && rows == old(rows)
      ensures row !in old(rows) && DbRows.Size(row) == |titles| ==> r == Ok(true) && rows == old(rows) + [row]
    {
      if row in rows {
        return Ok(false);
      }
      if DbRows.Size(row) != NumColumns() {
        return Err(RowLengthMessage(DbRows.Size(row), NumColumns()));
      }
      rows := rows + [row];
      r := Ok(true);
    }
  }

  /** The iterator. pos counts the rows the wrapped list iterator has
      handed out; row is the current row, None once they are used up. The
      table is not changed while an iterator is in use. */
  class TableIterator {
    const table: Table
    var pos: nat
    var row: Option<Row>

    ghost predicate Valid()
      reads this, table
    {
      && table.Valid()
      && pos <= |table.rows|
      && (row.Some? ==> 1 <= pos && row.value == table.rows[pos - 1])
      && (row.None? ==> pos == |table.rows|)
    }

    /** The index of the current row; the number of rows once none is
        left. */
    ghost function Current(): nat
      reads this
    {
      if row.Some? && pos >= 1 then pos - 1 else pos
    }

    /** new TableIterator(table): reset() to the first row. */
    constructor (t: Table)
      requires t.Valid()
      ensures table == t && Valid() && Current() == 0
      ensures row == (if t.rows == [] then None else Some(t.rows[0]))
    {
      table := t;
      new;
      Reset();
    }

    /** reset(): a fresh iterator over the rows, advanced once. */
    method Reset()
      requires table.Valid()
      modifies this
      ensures Valid() && Current() == 0
      ensures row == (if table.rows == [] then None else Some(table.rows[0]))
    {
      pos := 0;
      row := None;
      var r := Next();
    }

    /** next(): the next row, or None when there is none; returns the new
        current row. */
    method Next() returns (r: Option<Row>)
      requires table.Valid() && pos <= |table.rows|
      modifies this
      ensures Valid() && r == row
      ensures old(pos) < |table.rows| ==> row == Some(table.rows[old(pos)]) && pos == old(pos) + 1
      ensures old(pos) == |table.rows| ==> row.None? && pos == old(pos)
    {
      if pos < |table.rows| {
        row := Some(table.rows[pos]);
        pos := pos + 1;
      } else {
        row := None;
      }
      r := row;
    }

    /** hasRow() */
    function HasRow(): (b: bool)
      reads this, table
      requires Valid()
      ensures b <==> Current() < |table.rows|
    {
      row.Some?
    }

    /** columnIndex(name): the table's. */
    method ColumnIndex(name: string) returns (i: int)
      ensures i == TitleIndex(table.titles, name)
    {
      i := table.ColumnIndex(name);
    }

    /** The current row has a k-th value. */
    ghost predicate Fits(k: int)
      reads this
    {
      0 <= k && (row.Some? ==> k < DbRows.Size(row.value))
    }

    /** value(k): IllegalStateException once past the last row, otherwise
        the k-th value of the current row. */
    function Value(k: int): (r: Result<string>)
      reads this
      requires Fits(k)
      ensures r.Err? <==> row.None?
      ensures r.Err? ==> r.msg == "Past the last row."
      ensures r.Ok? ==> r.value == row.value.data[k]
    {
      if row.None? then Err("Past the last row.") else Ok(Get(row.value, k))
    }
  }

  /** Every column index of the table fits the current row of a valid
      iterator. */
  lemma ColumnsFit(it: TableIterator, k: int)
    requires it.Valid() && 0 <= k < |it.table.titles|
    ensures it.Fits(k)
  {
  }

  /** Walking the iterator with next() visits every row in order, a
      current row present at each step; after size() calls hasRow() is
      false, and reset() then returns to the first row. */
  method Walk(it: TableIterator) returns (seen: seq<Row>, hasRowAfter: bool)
    requires it.Valid() && it.Current() == 0
    modifies it
    ensures seen == it.table.rows && !hasRowAfter
    ensures it.Valid() && it.Current() == 0
  {
    seen := [];
    for i := 0 to |it.table.rows|
      invariant it.Valid() && it.Current() == i && seen == it.table.rows[..i]
    {
      assert it.HasRow();
      seen := seen + [it.row.value];
      var r := it.Next();
    }
    hasRowAfter := it.HasRow();
    it.Reset();
  }
}
