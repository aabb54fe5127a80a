/** A db61b column designator: a named column of some table, attached by
    resolve to one of the table iterators of a select; or a literal. */
module DbColumns {
  import opened Common
  import opened DbRows
  import opened DbTables

  /** The positions of the iterators among its[..n] whose table has a
      column called name, in order. */
  function Holders(its: seq<TableIterator>, name: string, n: nat): (hs: seq<nat>)
    requires n <= |its|
    ensures forall i :: 0 <= i < |hs| ==> hs[i] < n
  {
    if n == 0 then []
    else Holders(its, name, n - 1) + (if name in its[n - 1].table.titles then [n - 1] else [])
  }

  /** The holders are exactly the iterators whose table has the column,
      in increasing order. */
  lemma {:induction false} HoldersMeaning(its: seq<TableIterator>, name: string, n: nat)
    requires n <= |its|
    ensures var hs := Holders(its, name, n);
            && (forall i :: 0 <= i < |hs| ==> name in its[hs[i]].table.titles)
            && (forall k :: 0 <= k < n && name in its[k].table.titles ==> k in hs)
            && (forall i, j :: 0 <= i < j < |hs| ==> hs[i] < hs[j])
  {
    HoldersHold(its, name, n);
    HoldersAll(its, name, n);
    HoldersIncrease(its, name, n);
  }

  lemma {:induction false} HoldersHold(its: seq<TableIterator>, name: string, n: nat)
    requires n <= |its|
    ensures forall i :: 0 <= i < |Holders(its, name, n)| ==> name in its[Holders(its, name, n)[i]].table.titles
  {
    if n > 0 {
      HoldersHold(its, name, n - 1);
      var hs0, hs := Holders(its, name, n - 1), Holders(its, name, n);
      assert hs == hs0 + (if name in its[n - 1].table.titles then [n - 1] else []);
      forall i | 0 <= i < |hs|
        ensures name in its[hs[i]].table.titles
      {
        if i < |hs0| {
          assert hs[i] == hs0[i];
        }
      }
    }
  }

  lemma {:induction false} HoldersAll(its: seq<TableIterator>, name: string, n: nat)
    requires n <= |its|
    ensures forall k :: 0 <= k < n && name in its[k].table.titles ==> k in Holders(its, name, n)
  {
    if n > 0 {
      HoldersAll(its, name, n - 1);
      var hs0 := Holders(its, name, n - 1);
      assert forall k :: k in hs0 ==> k in Holders(its, name, n);
    }
  }

  lemma {:induction false} HoldersIncrease(its: seq<TableIterator>, name: string, n: nat)
    requires n <= |its|
    ensures forall i, j :: 0 <= i < j < |Holders(its, name, n)| ==> Holders(its, name, n)[i] < Holders(its, name, n)[j]
  {
    if n > 0 {
      HoldersIncrease(its, name, n - 1);
      var hs0, hs := Holders(its, name, n - 1), Holders(its, name, n);
      assert hs == hs0 + (if name in its[n - 1].table.titles then [n - 1] else []);
      forall i, j | 0 <= i < j < |hs|
        ensures hs[i] < hs[j]
      {
        assert hs[i] == hs0[i];
        if j < |hs0| {
          assert hs[j] == hs0[j];
        }
      }
    }
  }

  /** The position of the first iterator over table t, or |its|. */
  function FirstOver(its: seq<TableIterator>, t: Table): (i: nat)
    ensures i <= |its| && (i < |its| ==> its[i].table == t)
    ensures forall j :: 0 <= j < i ==> its[j].table != t
  {
    if its == [] then 0 else if its[0].table == t then 0 else FirstOver(its[1..], t) + 1
  }

  class Column {
    const name: Option<string>
    const table: Table?
    var index: int
    var rowSource: TableIterator?
    const value: Option<string>
    var alias: Option<string>

    /** A literal has no name; every other column has one. */
    ghost predicate Valid()
    {
      (value.None? ==> name.Some?) && (value.Some? ==> name.None? && table == null)
    }

    /** Attached, as value() requires: a literal, or a row source whose
        current row has a value at index. */
    ghost predicate Ready()
      reads this, rowSource
    {
      value.Some? || (rowSource != null && rowSource.Fits(index))
    }

    constructor Named(t: Table?, n: string)
      requires t != null ==> n in t.titles
      ensures Valid() && name == Some(n) && table == t && value.None?
      ensures rowSource == null && alias.None?
    {
      name := Some(n);
      table := t;
      value := None;
      rowSource := null;
      alias := None;
    }

    /** new Column(table, name): a DBException when a table is given and
        has no such column. */
    static method Create(t: Table?, n: string) returns (r: Result<Column>)
      ensures r.Err? <==> t != null && n !in t.titles
      ensures r.Err? ==> r.msg == n + " is not a column in " + t.name
      ensures r.Ok? ==> fresh(r.value) && r.value.Valid() && r.value.name == Some(n) && r.value.table == t
                        && r.value.value.None? && r.value.rowSource == null && r.value.alias.None?
    {
      if t != null {
        var k := t.ColumnIndex(n);
        if k == -1 {
          return Err(n + " is not a column in " + t.name);
        }
      }
      var c := new Column.Named(t, n);
      r := Ok(c);
    }

    /** new Column(value): an anonymous column, already resolved, whose
        value is always v. */
    constructor Literal(v: string)
      ensures Valid() && name.None? && table == null && value == Some(v)
      ensures rowSource == null && index == 0 && alias.None?
    {
      name := None;
      table := null;
      value := Some(v);
      index := 0;
      rowSource := null;
      alias := None;
    }

    /** name(): None for a literal. */
    function Name(): (n: Option<string>)
      requires Valid()
      ensures n.None? <==> value.Some?
      ensures n == name
    {
      name
    }

    /** resolve(iterators). A literal is left alone. A column of no given
        table takes the only iterator whose table has its name: a second
        such iterator, or any such iterator once a row source is set (from
        an earlier resolve, which is not undone), makes it ambiguous, and
        none makes it unknown. A column of a given table takes the first
        iterator over that table. */
    method Resolve(its: seq<TableIterator>) returns (r: Result<()>)
      requires Valid()
      modifies this`index, this`rowSource
      ensures value.Some? ==> r == Ok(()) && index == old(index) && rowSource == old(rowSource)
      ensures value.None? && table == null ==>
                var hs := Holders(its, name.value, |its|);
                && (hs == [] ==> r == Err("unknown column: " + name.value))
                && (hs != [] && old(rowSource) != null ==> r == Err(name.value + " is ambiguous"))
                && (|hs| >= 2 ==> r == Err(name.value + " is ambiguous"))
                && (r.Ok? <==> |hs| == 1 && old(rowSource) == null)
                && (r.Ok? ==> rowSource == its[hs[0]] && index == TitleIndex(its[hs[0]].table.titles, name.value))
      ensures value.None? && table != null ==>
                var i := FirstOver(its, table);
                && (i == |its| ==> r == Err(table.name + " is not being selected from") && rowSource == old(rowSource))
                && (i < |its| ==> r == Ok(()) && rowSource == its[i] && index == TitleIndex(table.titles, name.value))
    {
      if value.Some? {
        return Ok(());
      }
      if table == null {
        r := ResolveByName(its);
      } else {
        r := ResolveInTable(its);
      }
    }

    /** resolve for a column of no given table: the loop over the
        iterators. */
    method ResolveByName(its: seq<TableIterator>) returns (r: Result<()>)
      requires Valid() && value.None? && table == null
      modifies this`index, this`rowSource
      ensures var hs := Holders(its, name.value, |its|);
              && (hs == [] ==> r == Err("unknown column: " + name.value))
              && (hs != [] && old(rowSource) != null ==> r == Err(name.value + " is ambiguous"))
              && (|hs| >= 2 ==> r == Err(name.value + " is ambiguous"))
              && (r.Ok? <==> |hs| == 1 && old(rowSource) == null)
              && (r.Ok? ==> rowSource == its[hs[0]] && index == TitleIndex(its[hs[0]].table.titles, name.value))
    {
      var n := name.value;
      var src, k, ambiguous := ScanByName(its, n, rowSource);
      index := k;
      rowSource := src;
      if ambiguous {
        return Err(n + " is ambiguous");
      }
      if index == -1 {
        return Err("unknown column: " + n);
      }
      r := Ok(());
    }

    /** resolve for a column of a given table: the first iterator over that
        table. */
    method ResolveInTable(its: seq<TableIterator>) returns (r: Result<()>)
      requires Valid() && value.None? && table != null
      modifies this`index, this`rowSource
      ensures var i := FirstOver(its, table);
              && (i == |its| ==> r == Err(table.name + " is not being selected from") && rowSource == old(rowSource))
              && (i < |its| ==> r == Ok(()) && rowSource == its[i] && index == TitleIndex(table.titles, name.value))
    {
      var i := 0;
      while i < |its|
        invariant i <= |its| && forall j :: 0 <= j < i ==> its[j].table != table
        invariant rowSource == old(rowSource)
      {
        if its[i].table == table {
          FirstOverIs(its, table, i);
          rowSource := its[i];
          index := its[i].ColumnIndex(name.value);
          return Ok(());
        }
        i := i + 1;
      }
      FirstOverIs(its, table, i);
      r := Err(table.name + " is not being selected from");
    }

    /** value(): the literal, or the value at index of the row source's
        current row; past the last row, the iterator's exception. */
    function Value(): (r: Result<string>)
      reads this, rowSource
      requires Ready()
      ensures value.Some? ==> r == Ok(value.value)
      ensures value.None? ==> r == rowSource.Value(index)
    {
      if value.Some? then Ok(value.value) else rowSource.Value(index)
    }

    /** alias(): the alias if one is set, otherwise the name. */
    function Alias(): (a: Option<string>)
      reads this
      ensures alias.None? ==> a == name
      ensures alias.Some? ==> a == alias
    {
      if alias.None? then name else alias
    }

    /** setAlias(alias) */
    method SetAlias(a: string)
      modifies this`alias
      ensures alias == Some(a)
    {
      alias := Some(a);
    }
  }

  /** The loop of resolve for a column of no given table, starting from
      the row source start: the row source and index it sets, and whether
      it stops at an iterator that makes the name ambiguous. */
  method ScanByName(its: seq<TableIterator>, n: string, start: TableIterator?)
    returns (src: TableIterator?, index: int, ambiguous: bool)
    ensures var hs := Holders(its, n, |its|);
            && (ambiguous <==> (hs != [] && start != null) || |hs| >= 2)
            && (!ambiguous && hs == [] ==> index == -1)
            && (!ambiguous && hs != [] ==> |hs| == 1 && src == its[hs[0]] && 0 <= index == TitleIndex(src.table.titles, n))
  {
    index := -1;
    src := start;
    ghost var hs: seq<nat> := [];
    for i := 0 to |its|
      invariant hs == Holders(its, n, i)
      invariant start != null ==> hs == [] && src == start && index == -1
      invariant start == null && hs == [] ==> src == null && index == -1
      invariant start == null && hs != [] ==> |hs| == 1 && src == its[hs[0]] && 0 <= index == TitleIndex(src.table.titles, n)
    {
      var k := its[i].ColumnIndex(n);
      assert Holders(its, n, i + 1) == hs + (if k >= 0 then [i] else []);
      if k >= 0 {
        if src != null {
          FirstHolder(its, n, i);
          return src, index, true;
        }
        index := k;
        src := its[i];
        hs := hs + [i];
      }
    }
    ambiguous := false;
  }

  /** An iterator at i that holds the name is one holder more than those
      before it. */
  lemma FirstHolder(its: seq<TableIterator>, n: string, i: nat)
    requires i < |its| && n in its[i].table.titles
    ensures |Holders(its, n, |its|)| >= |Holders(its, n, i)| + 1
  {
    HoldersGrow(its, n, i + 1, |its|);
  }

  /** Holders only grows with the prefix. */
  lemma {:induction false} HoldersGrow(its: seq<TableIterator>, n: string, i: nat, j: nat)
    requires i <= j <= |its|
    ensures |Holders(its, n, i)| <= |Holders(its, n, j)|
    decreases j - i
  {
    if i < j {
      HoldersGrow(its, n, i, j - 1);
    }
  }

  /** The loop's first match is FirstOver. */
  lemma FirstOverIs(its: seq<TableIterator>, t: Table, i: nat)
    requires i <= |its| && (forall j :: 0 <= j < i ==> its[j].table != t)
    requires i < |its| ==> its[i].table == t
    ensures FirstOver(its, t) == i
  {
    var k := FirstOver(its, t);
    assert k < |its| ==> its[k].table == t;
  }

  /** A column resolved against a single iterator over its table reads
      that iterator's current row, and its alias is its name until an
      alias is set. */
  method ResolveOne(c: Column, it: TableIterator) returns (r: Result<()>, v: Result<string>)
    requires c.Valid() && c.value.None? && c.rowSource == null && it.Valid()
    requires c.name.value in it.table.titles
    requires c.table == null || c.table == it.table
    modifies c`index, c`rowSource
    ensures r.Ok? && c.rowSource == it && c.Ready()
    ensures it.row.Some? ==> v == Ok(it.row.value.data[TitleIndex(it.table.titles, c.name.value)])
    ensures it.row.None? ==> v == Err("Past the last row.")
  {
    var its := [it];
    if c.table != null {
      FirstOverIs(its, c.table, 0);
    } else {
      assert Holders(its, c.name.value, 1) == [0];
    }
    r := c.Resolve(its);
    assert c.rowSource == it && c.index == TitleIndex(it.table.titles, c.name.value);
    ColumnsFit(it, c.index);
    v := c.Value();
  }
}
