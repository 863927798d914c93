/**
 * static/js/sort_tables.js: a table whose column headers sort its body rows
 * when clicked. One column at a time carries a direction, shown as an arrow
 * after its header text and on a matching button for small screens.
 */
module SortTables {
  import opened Wrappers
  import opened Text

  datatype Direction = Asc | Desc

  /** The defaults of `initSortableTables`: sort by the first column, descending. */
  const DefaultIndex: nat := 0
  const DefaultDirection: Direction := Desc

  /** A body row: `node` is the element's identity, `cells` the text of its cells. */
  datatype Row = Row(node: nat, cells: seq<string>)

  /** The arrow shown after a header: up for ascending, down for descending, none when unsorted. */
  function Arrow(d: Option<Direction>): string {
    match d
    case Some(Asc) => " \U{2191}"
    case Some(Desc) => " \U{2193}"
    case None => ""
  }

  /** A column's label: its base text followed by the arrow of its direction. */
  function Label(base: string, d: Option<Direction>): (r: string)
    ensures IsPrefix(base, r) && |r| <= |base| + 2
    ensures |r| == |base| <==> d.None?
  {
    base + Arrow(d)
  }

  /** The label tells the column's direction back: two directions never give the same label. */
  lemma LabelShowsDirection(base: string, d1: Option<Direction>, d2: Option<Direction>)
    requires Label(base, d1) == Label(base, d2)
    ensures d1 == d2
  {
    if d1.Some? && d2.Some? {
      assert Label(base, d1)[|base| + 1] == Arrow(d1)[1];
    }
  }

  /** Every column's label, in header order. */
  function Labels(bases: seq<string>, ds: seq<Option<Direction>>): (r: seq<string>)
    requires |bases| == |ds|
    ensures |r| == |bases| && forall i :: 0 <= i < |r| ==> r[i] == Label(bases[i], ds[i])
  {
    seq(|bases|, i requires 0 <= i < |bases| => Label(bases[i], ds[i]))
  }

  /** The direction a click gives a column: descending after ascending, ascending otherwise. */
  function Toggled(d: Option<Direction>): (r: Direction)
    ensures r == Desc <==> d == Some(Asc)
  {
    if d == Some(Asc) then Desc else Asc
  }

  /** Clicking a column repeatedly alternates its direction, starting with ascending. */
  lemma ToggleAlternates(d: Option<Direction>)
    ensures Toggled(Some(Toggled(d))) != Toggled(d)
    ensures Toggled(Some(Toggled(Some(Toggled(d))))) == Toggled(d)
    ensures d.None? ==> Toggled(d) == Asc
  {
  }

  /** What the comparator's result is multiplied by. */
  function Multiplier(d: Direction): (m: int)
    ensures m == 1 || m == -1
  {
    if d == Asc then 1 else -1
  }

  /**
   * The comparator `sortTable` hands to `rows.sort`: the key's comparison of
   * two rows (date difference, number difference or `localeCompare` of their
   * trimmed cells, left uninterpreted as `key`) times the direction's multiplier.
   */
  function Comparator(key: (Row, Row) -> int, d: Direction, a: Row, b: Row): (c: int)
    ensures d == Asc ==> c == key(a, b)
    ensures d == Desc ==> c == -key(a, b)
  {
    key(a, b) * Multiplier(d)
  }

  /**
   * Descending order puts `a` before `b` exactly when ascending order puts `b`
   * before `a`; for a key that is antisymmetric, as differences and
   * `localeCompare` are, descending is ascending with the operands swapped.
   */
  lemma DescendingReverses(key: (Row, Row) -> int, a: Row, b: Row)
    ensures Comparator(key, Desc, a, b) < 0 <==> Comparator(key, Asc, a, b) > 0
    ensures Comparator(key, Desc, a, b) == 0 <==> Comparator(key, Asc, a, b) == 0
    ensures key(a, b) == -key(b, a) ==> Comparator(key, Desc, a, b) == Comparator(key, Asc, b, a)
  {
  }

  /** At most one column has a direction. */
  predicate AtMostOneSorted(ds: seq<Option<Direction>>) {
    forall i, j :: 0 <= i < |ds| && 0 <= j < |ds| && ds[i].Some? && ds[j].Some? ==> i == j
  }

  /** No row appears twice: the body holds distinct elements. */
  ghost predicate Distinct(rows: seq<Row>) {
    forall x :: multiset(rows)[x] <= 1
  }

  /** `s` without the rows listed in `gone`, in the order of `s`. */
  function Removed(s: seq<Row>, gone: seq<Row>): seq<Row> {
    if s == [] then []
    else (if s[0] in gone then [] else [s[0]]) + Removed(s[1..], gone)
  }

  lemma {:induction false} RemovedAppend(a: seq<Row>, b: seq<Row>, gone: seq<Row>)
    ensures Removed(a + b, gone) == Removed(a, gone) + Removed(b, gone)
  {
    if a != [] {
      assert (a + b)[0] == a[0];
      assert (a + b)[1..] == a[1..] + b;
      RemovedAppend(a[1..], b, gone);
      assert Removed(a + b, gone) == (if a[0] in gone then [] else [a[0]]) + Removed(a[1..] + b, gone);
    } else {
      assert a + b == b;
    }
  }

  lemma {:induction false} RemovedNothing(s: seq<Row>, gone: seq<Row>)
    requires forall x :: x in gone ==> x !in s
    ensures Removed(s, gone) == s
  {
    if s != [] {
      RemovedNothing(s[1..], gone);
    }
  }

  lemma {:induction false} RemovedMore(s: seq<Row>, gone: seq<Row>, x: Row)
    ensures Removed(Removed(s, gone), [x]) == Removed(s, gone + [x])
  {
    if s != [] {
      var head := if s[0] in gone then [] else [s[0]];
      RemovedMore(s[1..], gone, x);
      RemovedAppend(head, Removed(s[1..], gone), [x]);
      assert Removed(head, [x]) == if s[0] in gone + [x] then [] else [s[0]];
    }
  }

  lemma {:induction false} RemovedAll(s: seq<Row>, gone: seq<Row>)
    requires forall x :: x in s ==> x in gone
    ensures Removed(s, gone) == []
  {
    if s != [] {
      RemovedAll(s[1..], gone);
    }
  }

  /**
   * One step of re-appending rows in a new order: with `done` already moved to
   * the end, moving `x` as well leaves the others in place and `done + [x]` at the end.
   */
  lemma AppendStep(rows: seq<Row>, done: seq<Row>, x: Row)
    requires x !in done
    ensures Removed(Removed(rows, done) + done, [x]) + [x] == Removed(rows, done + [x]) + (done + [x])
  {
    RemovedAppend(Removed(rows, done), done, [x]);
    RemovedNothing(done, [x]);
    RemovedMore(rows, done, x);
  }

  /** A row of a distinct sequence does not occur before its own position. */
  lemma DistinctPrefix(s: seq<Row>, k: nat)
    requires Distinct(s) && k < |s|
    ensures s[k] !in s[..k]
  {
    assert s == s[..k] + [s[k]] + s[k + 1..];
    assert multiset(s)[s[k]] == multiset(s[..k])[s[k]] + 1 + multiset(s[k + 1..])[s[k]];
  }

  /** Moving the `k`-th row of a distinct order to the end extends the moved prefix by that row. */
  lemma AppendSortedStep(rows: seq<Row>, sorted: seq<Row>, k: nat)
    requires Distinct(sorted) && k < |sorted|
    ensures Removed(Removed(rows, sorted[..k]) + sorted[..k], [sorted[k]]) + [sorted[k]]
      == Removed(rows, sorted[..k + 1]) + sorted[..k + 1]
  {
    DistinctPrefix(sorted, k);
    AppendStep(rows, sorted[..k], sorted[k]);
    assert sorted[..k + 1] == sorted[..k] + [sorted[k]];
  }

  /** Once every row of a permutation has been moved, the body is exactly that permutation, and it is distinct. */
  lemma SortedAllMoved(rows: seq<Row>, sorted: seq<Row>)
    requires Distinct(rows) && multiset(sorted) == multiset(rows)
    ensures Removed(rows, sorted[..|sorted|]) + sorted[..|sorted|] == sorted
    ensures Distinct(sorted)
  {
    assert sorted[..|sorted|] == sorted;
    forall x | x in rows ensures x in sorted {
      assert multiset(rows)[x] > 0;
    }
    RemovedAll(rows, sorted);
  }

  class SortableTable {
    /** The headers' trimmed texts, read once when the table is set up. */
    const baseTexts: seq<string>
    /** Each column's direction, `null` in the source for unsorted. */
    const directions: array<Option<Direction>>
    /** The text each header shows. */
    var headerLabels: seq<string>
    /** The text of each mobile sort button, one per header in header order. */
    var buttonLabels: seq<string>
    /** The rows of the table body, in display order. */
    var body: seq<Row>

    ghost predicate Valid()
      reads this, directions
    {
      && directions.Length == |baseTexts| == |headerLabels| == |buttonLabels|
      && AtMostOneSorted(directions[..])
      && Distinct(body)
    }

    /**
     * `initSortableTables` on one table: no column sorted, one button per
     * header; then, when `defaultIndex` names a column, that column gets
     * `defaultDirection`, the labels are redrawn and the body is sorted.
     */
    constructor (headerTexts: seq<string>, rows: seq<Row>, defaultIndex: nat, defaultDirection: Direction)
      requires Distinct(rows)
      ensures Valid() && fresh(directions)
      ensures baseTexts == TrimAll(headerTexts)
      ensures defaultIndex < |headerTexts| ==>
        && directions[defaultIndex] == Some(defaultDirection)
        && (forall j :: 0 <= j < directions.Length && j != defaultIndex ==> directions[j].None?)
        && headerLabels == Labels(baseTexts, directions[..]) && buttonLabels == headerLabels
        && multiset(body) == multiset(rows)
      ensures defaultIndex >= |headerTexts| ==>
        && (forall j :: 0 <= j < directions.Length ==> directions[j].None?)
        && headerLabels == headerTexts && buttonLabels == baseTexts && body == rows
    {
      baseTexts := TrimAll(headerTexts);
      directions := new Option<Direction>[|headerTexts|](_ => None);
      headerLabels := headerTexts;
      body := rows;
      buttonLabels := [];
      new;
      for i := 0 to |headerTexts|
        invariant buttonLabels == baseTexts[..i]
        invariant headerLabels == headerTexts && body == rows
        invariant forall j :: 0 <= j < directions.Length ==> directions[j].None?
      {
        buttonLabels := buttonLabels + [baseTexts[i]];
      }
      if defaultIndex < |headerTexts| {
        SortByDefault(defaultIndex, defaultDirection);
      }
    }

    /** The set-up's last step: the default column gets its direction, the labels are redrawn and the body sorted. */
    method SortByDefault(index: nat, direction: Direction)
      requires Valid() && index < directions.Length
      requires forall j :: 0 <= j < directions.Length ==> directions[j].None?
      modifies this, directions
      ensures Valid()
      ensures directions[index] == Some(direction)
      ensures forall j :: 0 <= j < directions.Length && j != index ==> directions[j].None?
      ensures headerLabels == Labels(baseTexts, directions[..]) && buttonLabels == headerLabels
      ensures multiset(body) == multiset(old(body))
    {
      directions[index] := Some(direction);
      UpdateLabels();
      SortTable(index, direction);
    }

    /** `updateLabels`: every header and its button show the column's label. */
    method UpdateLabels()
      requires directions.Length == |baseTexts| == |headerLabels| == |buttonLabels|
      modifies this
      ensures headerLabels == Labels(baseTexts, directions[..]) && buttonLabels == headerLabels
      ensures body == old(body)
    {
      for i := 0 to directions.Length
        invariant |headerLabels| == |buttonLabels| == directions.Length
        invariant forall j :: 0 <= j < i ==> headerLabels[j] == Label(baseTexts[j], directions[j])
        invariant forall j :: 0 <= j < i ==> buttonLabels[j] == headerLabels[j]
        invariant body == old(body)
      {
        var shown := baseTexts[i] + Arrow(directions[i]);
        headerLabels := headerLabels[i := shown];
        buttonLabels := buttonLabels[i := shown];
      }
    }

    /** `tbody.appendChild(r)` for a row already in the body: it moves to the end. */
    method AppendChild(r: Row)
      modifies this
      ensures body == Removed(old(body), [r]) + [r]
      ensures headerLabels == old(headerLabels) && buttonLabels == old(buttonLabels)
    {
      body := Removed(body, [r]) + [r];
    }

    /**
     * `sortTable`: the rows are read, put in the order the browser's sort
     * gives them (the comparator is not modelled, so any order may come out),
     * and re-appended one by one; the body ends up holding exactly that order.
     */
    method SortTable(index: nat, direction: Direction)
      requires Valid() && index < |baseTexts|
      modifies this
      ensures Valid()
      ensures multiset(body) == multiset(old(body))
      ensures headerLabels == old(headerLabels) && buttonLabels == old(buttonLabels)
    {
      var rows := body;
      var sorted :| multiset(sorted) == multiset(rows);
      RemovedNothing(rows, []);
      for k := 0 to |sorted|
        invariant body == Removed(rows, sorted[..k]) + sorted[..k]
        invariant headerLabels == old(headerLabels) && buttonLabels == old(buttonLabels)
      {
        AppendSortedStep(rows, sorted, k);
        AppendChild(sorted[k]);
      }
      SortedAllMoved(rows, sorted);
    }

    /**
     * `toggleSort(i)`: the column's direction flips (ascending first), every
     * other column loses its direction, the labels are redrawn and the body
     * is sorted by that column.
     */
    method ToggleSort(i: nat)
      requires Valid() && i < directions.Length
      modifies this, directions
      ensures Valid()
      ensures directions[i] == Some(Toggled(old(directions[i])))
      ensures forall j :: 0 <= j < directions.Length && j != i ==> directions[j].None?
      ensures headerLabels == Labels(baseTexts, directions[..]) && buttonLabels == headerLabels
      ensures multiset(body) == multiset(old(body))
    {
      var current := Toggled(directions[i]);
      for j := 0 to directions.Length
        modifies directions
        invariant forall k :: 0 <= k < j ==> directions[k].None?
      {
        directions[j] := None;
      }
      directions[i] := Some(current);
      UpdateLabels();
      SortTable(i, current);
    }
  }
}
