/** The client's side of a read: the list of cells it receives is put together again into a forest,
    or a single tree, of rows. */
module Rebuild {
  import Order
  import Skiplists
  import opened SortedSeq
  import opened KeyPaths
  import opened Cells
  import opened RowTrees

  type Contents = map<Path, Columns>

  /** What a list of cells says. */
  function Told(cells: seq<Cell>): Contents {
    if cells == [] then map[] else var c := cells[|cells| - 1]; Told(cells[..|cells| - 1])[c.keys := ColumnsOf(c)]
  }

  /** No cell is above another one. */
  ghost predicate PrefixFree(cells: seq<Cell>) {
    forall i, j :: 0 <= i < |cells| && 0 <= j < |cells| && i != j ==> !(cells[i].keys <= cells[j].keys)
  }

  ghost predicate Keyed(cells: seq<Cell>) {
    forall i :: 0 <= i < |cells| ==> cells[i].keys != []
  }

  /** Nothing stored is above or below p. */
  ghost predicate Free(contents: Contents, p: Path) {
    forall q :: q in contents ==> !(q <= p) && !(p <= q)
  }

  ghost predicate Forest(paths: Paths, contents: Contents)
    reads paths.Values`inner, paths.Values`cells, paths.Values`columns
  {
    Shape(paths) && Stores(paths, contents) && Complete(paths, contents)
  }

  /** On the way to a free path all cells have children, and the way ends before the path does. */
  lemma OnTheWay(paths: Paths, contents: Contents, p: Path, n: nat)
    requires Forest(paths, contents) && Free(contents, p) && n <= |p| && p[..n] in paths && p != []
    ensures paths[p[..n]].inner && n < |p|
  {
    assert p[..n] <= p;
    assert p in paths ==> Covered(contents, p);
    assert p[..|p|] == p;
  }

  /** From the cell at p[..n] down the path as far as there are cells. */
  method FindDeepest(top: DbCell, p: Path, n: nat, ghost paths: Paths, ghost contents: Contents)
    returns (cell: DbCell, j: nat)
    requires Forest(paths, contents) && Free(contents, p) && n < |p| && p[..n] in paths && paths[p[..n]] == top
    ensures n <= j < |p| && p[..j] in paths && paths[p[..j]] == cell && cell.inner && p[j] !in cell.cells
  {
    cell, j := top, n;
    while true
      invariant n <= j < |p| && p[..j] in paths && paths[p[..j]] == cell
      decreases |p| - j
    {
      OnTheWay(paths, contents, p, j);
      StepDown(paths, p, j);
      if p[j] !in cell.cells {
        break;
      }
      OnTheWay(paths, contents, p, j + 1);
      assert j < |p| - 1;
      cell := cell.cells[p[j]];
      j := j + 1;
    }
  }

  /** The inner loop of both rebuild functions: from the cell at p[..n] down as far as there are
      cells, and then a new row for the rest of the path. */
  method InsertCell(top: DbCell, p: Path, n: nat, columns: Columns, ghost paths: Paths, ghost contents: Contents)
    returns (ghost paths': Paths)
    requires Forest(paths, contents) && Free(contents, p) && n < |p| && p[..n] in paths && paths[p[..n]] == top
    modifies paths.Values`cells
    ensures Forest(paths', contents[p := columns]) && Grown(paths, paths', p)
    ensures forall q :: q in paths' && q !in paths ==> fresh(paths'[q])
  {
    var cell, j := FindDeepest(top, p, n, paths, contents);
    var row;
    ghost var cs;
    row, paths', cs := HangRow(cell, p[j..], columns, paths, contents, p, j);
    CompleteAgain(paths, paths', contents, p, columns);
  }

  lemma {:induction false} ToldKeys(cells: seq<Cell>, q: Path)
    ensures q in Told(cells) <==> exists i :: 0 <= i < |cells| && cells[i].keys == q
  {
    if cells != [] {
      var before := cells[..|cells| - 1];
      ToldKeys(before, q);
      if q in Told(before) {
        var i :| 0 <= i < |before| && before[i].keys == q;
        assert cells[i].keys == q;
      }
    }
  }

  lemma NextIsFree(cells: seq<Cell>, i: nat)
    requires PrefixFree(cells) && i < |cells|
    ensures Free(Told(cells[..i]), cells[i].keys)
  {
    forall q | q in Told(cells[..i])
      ensures !(q <= cells[i].keys) && !(cells[i].keys <= q)
    {
      ToldKeys(cells[..i], q);
      var j :| 0 <= j < i && cells[..i][j].keys == q;
      assert cells[j].keys == q;
    }
  }

  lemma ToldNext(cells: seq<Cell>, i: nat)
    requires i < |cells|
    ensures Told(cells[..i + 1]) == Told(cells[..i])[cells[i].keys := ColumnsOf(cells[i])]
  {
    assert cells[..i + 1][..i] == cells[..i];
  }

  // ---- The list of roots ----

  type RootList = Skiplists.Skiplist<int, DbCell?>

  /** The comparator orders the keys and tells them apart, and none of them is the header's. */
  ghost predicate TellsApart(cmp: (int, int) -> int, dom: iset<int>) {
    && Order.TotalPreorder(cmp, dom) && Order.LONG_MAX !in dom
    && forall a, b :: a in dom && b in dom ==> (cmp(a, b) == 0 <==> a == b)
  }

  /** The comparator of long keys does so for keys in one window of length 2^31. */
  lemma LongCmpTellsApart(lo: int)
    requires !Order.InWindow(lo, Order.LONG_MAX)
    ensures TellsApart(Order.LongCmp, iset k | Order.InWindow(lo, k))
  {
    Order.LongCmpPreorder(lo);
    Order.LongCmpOrdersInterval(lo, Order.TWO31);
    forall a, b | Order.InWindow(lo, a) && Order.InWindow(lo, b)
      ensures Order.LongCmp(a, b) == 0 <==> a == b
    {
      assert Order.AgreesWithOrder(a, b);
    }
  }

  /** The list holds the roots. */
  ghost predicate Lists(cmp: (int, int) -> int, dom: iset<int>, entries: seq<Entry<int, DbCell?>>,
                        roots: map<int, DbCell>) {
    && Ordered(cmp, dom, entries) && |entries| == |roots|
    && (forall k :: k in roots ==> k in dom)
    && (forall k :: k in dom ==> Get(cmp, entries, k) == if k in roots then Some(roots[k]) else None)
  }

  lemma ListsNewRoot(cmp: (int, int) -> int, dom: iset<int>, entries: seq<Entry<int, DbCell?>>, roots: map<int, DbCell>,
                     k: int, root: DbCell)
    requires TellsApart(cmp, dom) && Lists(cmp, dom, entries, roots) && k in dom && k !in roots
    ensures Lists(cmp, dom, Put(cmp, entries, k, root), roots[k := root])
  {
    PutKeepsOrder(cmp, dom, entries, k, root as DbCell?);
    HasIffGet(cmp, entries, k);
    forall q | q in dom
      ensures Get(cmp, Put(cmp, entries, k, root), q) == if q in roots[k := root] then Some(roots[k := root][q])
              else None
    {
      GetAfterPut(cmp, dom, entries, k, root as DbCell?, q);
    }
  }

  lemma HasIffGet(cmp: (int, int) -> int, entries: seq<Entry<int, DbCell?>>, k: int)
    ensures Has(cmp, entries, k) <==> Get(cmp, entries, k).Some?
  {
  }

  function First(c: Cell): int {
    if c.keys == [] then 0 else c.keys[0]
  }

  /** The first keys of some cells. */
  function Firsts(cells: seq<Cell>): set<int> {
    if cells == [] then {} else Firsts(cells[..|cells| - 1]) + {First(cells[|cells| - 1])}
  }

  lemma {:induction false} FirstsAre(cells: seq<Cell>, k: int)
    ensures k in Firsts(cells) <==> exists i :: 0 <= i < |cells| && First(cells[i]) == k
  {
    if cells != [] {
      var before := cells[..|cells| - 1];
      FirstsAre(before, k);
      if k in Firsts(before) {
        var i :| 0 <= i < |before| && First(before[i]) == k;
        assert First(cells[i]) == k;
      }
    }
  }

  lemma FirstsHas(cells: seq<Cell>, i: nat)
    requires i < |cells|
    ensures First(cells[i]) in Firsts(cells)
  {
    FirstsAre(cells, First(cells[i]));
  }

  lemma FirstsNext(cells: seq<Cell>, i: nat)
    requires i < |cells|
    ensures Firsts(cells[..i + 1]) == Firsts(cells[..i]) + {First(cells[i])}
  {
    assert cells[..i + 1][..i] == cells[..i];
  }

  /** The first keys seen so far, with the roots they have. */
  ghost predicate Seen(cells: seq<Cell>, n: nat, roots: map<int, DbCell>, seen: map<int, DbCell>)
    requires n <= |cells|
  {
    seen.Keys == Firsts(cells[..n]) && forall k :: k in seen ==> k in roots && seen[k] == roots[k]
  }

  lemma SeenNext(cells: seq<Cell>, i: nat, roots: map<int, DbCell>, seen: map<int, DbCell>)
    requires i < |cells| && Seen(cells, i, roots, seen) && First(cells[i]) in roots
    ensures var k := First(cells[i]); Seen(cells, i + 1, roots, if k in seen then seen else seen[k := roots[k]])
  {
    var k := First(cells[i]);
    FirstsNext(cells, i);
    assert k in seen ==> k in seen.Keys;
    assert seen[k := roots[k]].Keys == seen.Keys + {k};
  }

  /** Searches the list for a cell's first key, and puts the root there if it is not in yet. */
  method ListRoot(list: RootList, cells: seq<Cell>, i: nat, roots: map<int, DbCell>, ghost seen: map<int, DbCell>)
    returns (ghost seen': map<int, DbCell>)
    requires list.Valid() && TellsApart(list.cmp, list.dom)
    requires Lists(list.cmp, list.dom, list.contents, seen) && i < |cells| && Seen(cells, i, roots, seen)
    requires First(cells[i]) in list.dom && First(cells[i]) in roots
    modifies list, list.nodes, Skiplists.Arrays(list.nodes)
    ensures list.Valid() && Lists(list.cmp, list.dom, list.contents, seen') && Seen(cells, i + 1, roots, seen')
    ensures forall n :: n in list.nodes ==> n in old(list.nodes) || (fresh(n) && fresh(n.forward))
  {
    var k := First(cells[i]);
    SeenNext(cells, i, roots, seen);
    var node := list.Search(k);
    seen' := seen;
    if node == null {
      ListsNewRoot(list.cmp, list.dom, list.contents, seen, k, roots[k]);
      list.Insert(k, roots[k]);
      seen' := seen[k := roots[k]];
    }
  }

  /** The list of roots, with a root for each first key when it comes up first. */
  method ListRoots(cells: seq<Cell>, roots: map<int, DbCell>, cmp: (int, int) -> int, ghost dom: iset<int>)
    returns (list: RootList)
    requires TellsApart(cmp, dom) && roots.Keys == Firsts(cells) && forall k :: k in roots ==> k in dom
    ensures fresh(list) && list.Valid() && Lists(cmp, dom, list.contents, roots)
  {
    list := new Skiplists.Skiplist(cmp, Order.LONG_MAX, dom);
    ghost var seen: map<int, DbCell> := map[];
    for i := 0 to |cells|
      invariant list.Valid() && list.cmp == cmp && list.dom == dom
      invariant Lists(cmp, dom, list.contents, seen) && Seen(cells, i, roots, seen)
      invariant fresh(list) && forall n :: n in list.nodes ==> fresh(n) && fresh(n.forward)
    {
      FirstsHas(cells, i);
      seen := ListRoot(list, cells, i, roots, seen);
    }
    AllSeen(cells, roots, seen);
  }

  lemma AllSeen(cells: seq<Cell>, roots: map<int, DbCell>, seen: map<int, DbCell>)
    requires Seen(cells, |cells|, roots, seen) && roots.Keys == Firsts(cells)
    ensures seen == roots
  {
    assert cells[..|cells|] == cells;
    assert seen.Keys == roots.Keys;
    SameMap(seen, roots);
  }

  lemma SameMap(a: map<int, DbCell>, b: map<int, DbCell>)
    requires a.Keys == b.Keys
    requires forall k :: k in a ==> k in b && a[k] == b[k]
    ensures a == b
  {
    forall k
      ensures (k in a <==> k in b) && (k in a ==> a[k] == b[k])
    {
      assert k in a <==> k in a.Keys;
      assert k in b <==> k in b.Keys;
    }
    assert a == b;
  }

  lemma FirstsInDom(cells: seq<Cell>, dom: iset<int>)
    requires forall i :: 0 <= i < |cells| ==> First(cells[i]) in dom
    ensures (forall k :: k in Firsts(cells) ==> k in dom) && (|Firsts(cells)| != 0 <==> cells != [])
  {
    forall k
      ensures k in Firsts(cells) ==> k in dom
    {
      FirstsAre(cells, k);
    }
    if cells != [] {
      FirstsHas(cells, 0);
    }
  }

  /** The walk along the list, for a response with cells, counts the roots. */
  method ListAndCount(cells: seq<Cell>, roots: map<int, DbCell>, cmp: (int, int) -> int, ghost dom: iset<int>)
    returns (list: RootList, noRoots: nat)
    requires TellsApart(cmp, dom) && roots.Keys == Firsts(cells)
    requires forall i :: 0 <= i < |cells| ==> First(cells[i]) in dom
    ensures list.Valid() && Lists(cmp, dom, list.contents, roots) && noRoots == list.noItems == |roots|
  {
    FirstsInDom(cells, dom);
    assert |roots| == |roots.Keys|;
    list := ListRoots(cells, roots, cmp, dom);
    noRoots := 0;
    if cells != [] {
      var start, end, n := list.WalkToEnd();
      noRoots := n;
    }
    assert list.noItems == noRoots;
  }

  /** The roots of a forest are the first keys of the cells. */
  lemma RootKeys(paths: Paths, cells: seq<Cell>, k: int)
    requires Forest(paths, Told(cells)) && Keyed(cells)
    ensures k in paths[[]].cells <==> k in Firsts(cells)
  {
    assert [] + [k] == [k];
    ChildIsBelow(paths, [], k);
    if k in Firsts(cells) {
      FirstIsRoot(paths, cells, k);
    } else if [k] in paths {
      RootIsFirst(paths, cells, k);
    }
  }

  lemma FirstIsRoot(paths: Paths, cells: seq<Cell>, k: int)
    requires Forest(paths, Told(cells)) && Keyed(cells) && k in Firsts(cells)
    ensures [k] in paths
  {
    FirstsAre(cells, k);
    var i :| 0 <= i < |cells| && First(cells[i]) == k;
    var q := cells[i].keys;
    assert q in Told(cells) by {
      ToldKeys(cells, q);
    }
    StoredHasRoot(paths, Told(cells), q);
  }

  lemma StoredHasRoot(paths: Paths, contents: Contents, q: Path)
    requires Forest(paths, contents) && q in contents && q != []
    ensures [q[0]] in paths
  {
    PrefixIn(paths, q, 1);
    assert q[..1] == [q[0]];
  }

  lemma RootIsFirst(paths: Paths, cells: seq<Cell>, k: int)
    requires Forest(paths, Told(cells)) && [k] in paths
    ensures k in Firsts(cells)
  {
    var q := BelowRoot(paths, Told(cells), k);
    ToldKeys(cells, q);
    var i :| 0 <= i < |cells| && cells[i].keys == q;
    FirstsHas(cells, i);
  }

  lemma BelowRoot(paths: Paths, contents: Contents, k: int) returns (q: Path)
    requires Forest(paths, contents) && [k] in paths
    ensures q in contents && InRow(q, k)
  {
    assert Covered(contents, [k]);
    q :| q in contents && [k] <= q;
  }

  // ---- The forest ----

  /** One cell of a response goes into the forest, below an existing root or as a new one. */
  method AddToForest(roots: DbCell, cell: Cell, ghost paths: Paths, ghost contents: Contents)
    returns (ghost paths': Paths)
    requires Forest(paths, contents) && paths[[]] == roots && roots.inner && cell.keys != [] &&
             Free(contents, cell.keys)
    modifies paths.Values`cells
    ensures Forest(paths', contents[cell.keys := ColumnsOf(cell)]) && Grown(paths, paths', cell.keys)
    ensures forall q :: q in paths' && q !in paths ==> fresh(paths'[q])
  {
    var p := cell.keys;
    StepDown(paths, p, 0);
    assert p[..0] == [] && p[0..] == p;
    if p[0] !in roots.cells {
      var row;
      ghost var cs;
      row, paths', cs := HangRow(roots, p, ColumnsOf(cell), paths, contents, p, 0);
      CompleteAgain(paths, paths', contents, p, ColumnsOf(cell));
    } else {
      OnTheWay(paths, contents, p, 1);
      paths' := InsertCell(roots.cells[p[0]], p, 1, ColumnsOf(cell), paths, contents);
    }
  }

  method BuildForest(cells: seq<Cell>) returns (roots: DbCell, ghost paths: Paths)
    requires PrefixFree(cells) && Keyed(cells)
    ensures Forest(paths, Told(cells)) && paths[[]] == roots
    ensures forall q :: q in paths ==> fresh(paths[q])
  {
    roots := new DbCell(0, true);
    paths := map[[] := roots];
    for i := 0 to |cells|
      invariant Forest(paths, Told(cells[..i])) && paths[[]] == roots && roots.inner
      invariant forall q :: q in paths ==> fresh(paths[q])
    {
      NextIsFree(cells, i);
      ToldNext(cells, i);
      paths := AddToForest(roots, cells[i], paths, Told(cells[..i]));
    }
    assert cells[..|cells|] == cells;
  }

  lemma RootsAreFirsts(paths: Paths, cells: seq<Cell>)
    requires Forest(paths, Told(cells)) && Keyed(cells)
    ensures paths[[]].cells.Keys == Firsts(cells)
  {
    forall k
      ensures k in paths[[]].cells <==> k in Firsts(cells)
    {
      RootKeys(paths, cells, k);
    }
  }

  /** get_db_rows_forest_from_read_response: for cells none of which is above another, the forest
      holds exactly what the cells say, and the walk along the list of its roots counts them all. */
  method RebuildForest(cells: seq<Cell>, cmp: (int, int) -> int, ghost dom: iset<int>)
    returns (roots: DbCell, list: RootList, noRoots: nat, ghost paths: Paths)
    requires PrefixFree(cells) && Keyed(cells) && TellsApart(cmp, dom)
    requires forall i :: 0 <= i < |cells| ==> First(cells[i]) in dom
    ensures Forest(paths, Told(cells)) && paths[[]] == roots
    ensures list.Valid() && Lists(cmp, dom, list.contents, roots.cells)
    ensures noRoots == list.noItems == |roots.cells|
  {
    roots, paths := BuildForest(cells);
    RootsAreFirsts(paths, cells);
    list, noRoots := ListAndCount(cells, roots.cells, cmp, dom);
  }

  // ---- Flattened rows can be rebuilt ----

  /** The cells of a row lie below its path. */
  lemma {:induction false} CellsBelow(row: Row, prefix: Path, i: nat)
    requires WellFormed(row) && i < |Serialize(row, prefix)|
    ensures prefix + [row.key] <= Serialize(row, prefix)[i].keys
    decreases row
  {
    if row.Inner? {
      var k := CellFrom(row.children, prefix + [row.key], i);
    }
  }

  /** Every cell of a list of rows comes from one of them. */
  lemma {:induction false} CellFrom(rows: seq<Row>, prefix: Path, i: nat) returns (k: nat)
    requires WellFormedAll(rows) && i < |SerializeAll(rows, prefix)|
    ensures k < |rows| && prefix + [rows[k].key] <= SerializeAll(rows, prefix)[i].keys
    ensures SerializeAll(rows, prefix)[i] in Serialize(rows[k], prefix)
    decreases rows
  {
    var n := |SerializeAll(rows[..|rows| - 1], prefix)|;
    if i < n {
      k := CellFrom(rows[..|rows| - 1], prefix, i);
    } else {
      k := |rows| - 1;
      CellsBelow(rows[k], prefix, i - n);
    }
  }

  lemma {:induction false} CellsOfOne(rows: seq<Row>, prefix: Path, k: nat, c: Cell)
    requires WellFormedAll(rows) && k < |rows| && c in Serialize(rows[k], prefix)
    ensures c in SerializeAll(rows, prefix)
  {
    if k < |rows| - 1 {
      CellsOfOne(rows[..|rows| - 1], prefix, k, c);
    }
  }

  /** The paths part at position n, and p comes first there. */
  predicate PartsAt(p: Path, q: Path, n: nat) {
    n < |p| && n < |q| && p[..n] == q[..n] && p[n] < q[n]
  }

  ghost predicate Precedes(p: Path, q: Path) {
    exists n :: PartsAt(p, q, n)
  }

  ghost predicate InKeyOrder(cells: seq<Cell>) {
    forall i, j :: 0 <= i < j < |cells| ==> Precedes(cells[i].keys, cells[j].keys)
  }

  lemma Apart(prefix: Path, a: int, b: int, p: Path, q: Path)
    requires a < b && prefix + [a] <= p && prefix + [b] <= q
    ensures Precedes(p, q)
  {
    var n := |prefix|;
    assert p[n] == (prefix + [a])[n] && q[n] == (prefix + [b])[n];
    assert p[..n] == prefix == q[..n];
    assert PartsAt(p, q, n);
  }

  lemma Incomparable(prefix: Path, a: int, b: int, p: Path, q: Path)
    requires a != b && prefix + [a] <= p && prefix + [b] <= q
    ensures !(p <= q) && !(q <= p)
  {
    assert p[|prefix|] == (prefix + [a])[|prefix|] && q[|prefix|] == (prefix + [b])[|prefix|];
  }

  /** The cells of a row are sent in the order of their keys, level by level. */
  lemma {:induction false} RowInOrder(row: Row, prefix: Path)
    requires WellFormed(row)
    ensures InKeyOrder(Serialize(row, prefix))
    decreases row
  {
    if row.Inner? {
      RowsInOrder(row.children, prefix + [row.key]);
    }
  }

  lemma {:induction false} RowsInOrder(rows: seq<Row>, prefix: Path)
    requires WellFormedAll(rows)
    ensures InKeyOrder(SerializeAll(rows, prefix))
    decreases rows
  {
    if rows != [] {
      var init, last := rows[..|rows| - 1], rows[|rows| - 1];
      RowsInOrder(init, prefix);
      RowInOrder(last, prefix);
      var a, b := SerializeAll(init, prefix), Serialize(last, prefix);
      forall i, j | 0 <= i < |a| && 0 <= j < |b|
        ensures Precedes(a[i].keys, b[j].keys)
      {
        var k := CellFrom(init, prefix, i);
        CellsBelow(last, prefix, j);
        Apart(prefix, init[k].key, last.key, a[i].keys, b[j].keys);
      }
      BothInOrder(a, b);
    }
  }

  lemma BothInOrder(a: seq<Cell>, b: seq<Cell>)
    requires InKeyOrder(a) && InKeyOrder(b)
    requires forall i, j :: 0 <= i < |a| && 0 <= j < |b| ==> Precedes(a[i].keys, b[j].keys)
    ensures InKeyOrder(a + b)
  {
    var c := a + b;
    forall i, j | 0 <= i < j < |c|
      ensures Precedes(c[i].keys, c[j].keys)
    {
      assert c[i] == if i < |a| then a[i] else b[i - |a|];
      assert c[j] == if j < |a| then a[j] else b[j - |a|];
    }
  }

  lemma OrderedIsPrefixFree(cells: seq<Cell>)
    requires InKeyOrder(cells)
    ensures PrefixFree(cells)
  {
    forall i, j | 0 <= i < |cells| && 0 <= j < |cells| && i != j
      ensures !(cells[i].keys <= cells[j].keys)
    {
      var p, q := cells[if i < j then i else j].keys, cells[if i < j then j else i].keys;
      var n :| PartsAt(p, q, n);
    }
  }

  lemma RowPrefixFree(row: Row, prefix: Path)
    requires WellFormed(row)
    ensures PrefixFree(Serialize(row, prefix))
  {
    RowInOrder(row, prefix);
    OrderedIsPrefixFree(Serialize(row, prefix));
  }

  lemma RowsPrefixFree(rows: seq<Row>, prefix: Path)
    requires WellFormedAll(rows)
    ensures PrefixFree(SerializeAll(rows, prefix))
  {
    RowsInOrder(rows, prefix);
    OrderedIsPrefixFree(SerializeAll(rows, prefix));
  }

  // ---- Rebuilding undoes flattening ----

  predicate Emits(cells: seq<Cell>, q: Path) {
    exists i :: 0 <= i < |cells| && cells[i].keys == q
  }

  /** Contents and cells say the same about the paths from p on. */
  ghost predicate Agrees(contents: Contents, cells: seq<Cell>, p: Path) {
    && (forall i :: 0 <= i < |cells| ==> cells[i].keys in contents && contents[cells[i].keys] == ColumnsOf(cells[i]))
    && (forall q :: q in contents && p <= q ==> Emits(cells, q))
  }

  lemma {:induction false} ToldAgrees(cells: seq<Cell>, i: nat)
    requires PrefixFree(cells) && i < |cells|
    ensures cells[i].keys in Told(cells) && Told(cells)[cells[i].keys] == ColumnsOf(cells[i])
  {
    var n := |cells| - 1;
    if i < n {
      var before := cells[..n];
      assert forall j :: 0 <= j < n ==> before[j] == cells[j];
      ToldAgrees(before, i);
      assert !(cells[i].keys <= cells[n].keys);
    }
  }

  lemma AgreesWithTold(cells: seq<Cell>)
    requires PrefixFree(cells)
    ensures Agrees(Told(cells), cells, [])
  {
    forall i | 0 <= i < |cells|
      ensures cells[i].keys in Told(cells) && Told(cells)[cells[i].keys] == ColumnsOf(cells[i])
    {
      ToldAgrees(cells, i);
    }
    forall q | q in Told(cells)
      ensures Emits(cells, q)
    {
      ToldKeys(cells, q);
    }
  }

  lemma AgreesWithChild(contents: Contents, rows: seq<Row>, p: Path, k: nat)
    requires WellFormedAll(rows) && k < |rows| && Agrees(contents, SerializeAll(rows, p), p)
    ensures Agrees(contents, Serialize(rows[k], p), p + [rows[k].key])
  {
    var all, one := SerializeAll(rows, p), Serialize(rows[k], p);
    forall i | 0 <= i < |one|
      ensures one[i].keys in contents && contents[one[i].keys] == ColumnsOf(one[i])
    {
      CellsOfOne(rows, p, k, one[i]);
      var j :| 0 <= j < |all| && all[j] == one[i];
    }
    forall q | q in contents && p + [rows[k].key] <= q
      ensures Emits(one, q)
    {
      assert p <= q && Emits(all, q);
      var i :| 0 <= i < |all| && all[i].keys == q;
      var m := CellFrom(rows, p, i);
      if rows[m].key != rows[k].key {
        Incomparable(p, rows[m].key, rows[k].key, q, q);
      }
      var j :| 0 <= j < |one| && one[j] == all[i];
    }
  }

  /** The cell at path p is the row: same key, same columns, or the same children in turn. */
  ghost predicate Represents(paths: Paths, p: Path, row: Row)
    reads paths.Values
    decreases row
  {
    && p in paths && paths[p].key == row.key
    && match row
       case Leaf(_, columns) => !paths[p].inner && paths[p].columns == columns
       case Inner(_, children) => paths[p].inner && RepresentsAll(paths, p, children)
  }

  /** The children of the cell at p are the rows, and no others. */
  ghost predicate RepresentsAll(paths: Paths, p: Path, rows: seq<Row>)
    reads paths.Values
    decreases rows
  {
    && p in paths
    && (forall k :: k in paths[p].cells <==> exists i :: 0 <= i < |rows| && rows[i].key == k)
    && (forall i :: 0 <= i < |rows| ==> Represents(paths, p + [rows[i].key], rows[i]))
  }

  /** A well-formed row has at least one cell. */
  lemma {:induction false} SomeCell(row: Row, prefix: Path)
    requires WellFormed(row)
    ensures Serialize(row, prefix) != []
    decreases row
  {
    if row.Inner? {
      SomeCell(row.children[|row.children| - 1], prefix + [row.key]);
    }
  }

  lemma RowIsThere(paths: Paths, contents: Contents, prefix: Path, row: Row)
    requires Forest(paths, contents) && WellFormed(row) && Agrees(contents, Serialize(row, prefix), prefix + [row.key])
    ensures prefix + [row.key] in paths && paths[prefix + [row.key]].key == row.key
  {
    var p := prefix + [row.key];
    SomeCell(row, prefix);
    CellsBelow(row, prefix, 0);
    var q := Serialize(row, prefix)[0].keys;
    PrefixIn(paths, q, |p|);
    assert q[..|p|] == p && Hangs(paths, p);
  }

  lemma {:induction false} RowRebuilt(paths: Paths, contents: Contents, prefix: Path, row: Row)
    requires Forest(paths, contents) && WellFormed(row) && Agrees(contents, Serialize(row, prefix), prefix + [row.key])
    ensures Represents(paths, prefix + [row.key], row)
    decreases row
  {
    var p := prefix + [row.key];
    RowIsThere(paths, contents, prefix, row);
    match row
    case Leaf(_, columns) =>
      ColumnsRoundTrip(p, columns);
      assert Serialize(row, prefix)[0].keys == p;
    case Inner(_, children) =>
      RowsRebuilt(paths, contents, p, children);
      assert paths[p].inner by {
        RowsNotHere(contents, p, children);
      }
  }

  /** A path with rows below it is not stored itself. */
  lemma RowsNotHere(contents: Contents, p: Path, rows: seq<Row>)
    requires WellFormedAll(rows) && Agrees(contents, SerializeAll(rows, p), p)
    ensures p !in contents
  {
    if p in contents {
      var cells := SerializeAll(rows, p);
      assert Emits(cells, p);
      var i :| 0 <= i < |cells| && cells[i].keys == p;
      var k := CellFrom(rows, p, i);
    }
  }

  lemma {:induction false} RowsRebuilt(paths: Paths, contents: Contents, p: Path, rows: seq<Row>)
    requires Forest(paths, contents) && WellFormedAll(rows) && p in paths && Agrees(contents, SerializeAll(rows, p), p)
    ensures RepresentsAll(paths, p, rows)
    decreases rows
  {
    forall i | 0 <= i < |rows|
      ensures Represents(paths, p + [rows[i].key], rows[i])
    {
      AgreesWithChild(contents, rows, p, i);
      RowRebuilt(paths, contents, p, rows[i]);
    }
    forall k
      ensures k in paths[p].cells <==> exists i :: 0 <= i < |rows| && rows[i].key == k
    {
      ChildIffRow(paths, contents, p, rows, k);
    }
  }

  lemma ChildIffRow(paths: Paths, contents: Contents, p: Path, rows: seq<Row>, k: int)
    requires Forest(paths, contents) && WellFormedAll(rows) && p in paths && Agrees(contents, SerializeAll(rows, p), p)
    ensures k in paths[p].cells <==> exists i :: 0 <= i < |rows| && rows[i].key == k
  {
    ChildIsBelow(paths, p, k);
    if i :| 0 <= i < |rows| && rows[i].key == k {
      AgreesWithChild(contents, rows, p, i);
      RowIsThere(paths, contents, p, rows[i]);
    } else if p + [k] in paths {
      assert Covered(contents, p + [k]);
      var i := CoveredByRow(contents, p, rows, k);
    }
  }

  lemma ChildIsBelow(paths: Paths, p: Path, k: int)
    requires Shape(paths) && p in paths
    ensures k in paths[p].cells <==> p + [k] in paths
  {
    var q := p + [k];
    assert q[..|p|] == p && q[..|p| + 1] == q;
    StepDown(paths, q, |p|);
  }

  lemma CoveredByRow(contents: Contents, p: Path, rows: seq<Row>, k: int) returns (m: nat)
    requires WellFormedAll(rows) && Agrees(contents, SerializeAll(rows, p), p) && Covered(contents, p + [k])
    ensures m < |rows| && rows[m].key == k
  {
    var r :| r in contents && p + [k] <= r;
    var cells := SerializeAll(rows, p);
    assert p <= r && Emits(cells, r);
    var i :| 0 <= i < |cells| && cells[i].keys == r;
    m := CellFrom(rows, p, i);
    if rows[m].key != k {
      Incomparable(p, rows[m].key, k, r, r);
    }
  }

  /** What a server sends can be rebuilt: no cell is above another, and each has a key. */
  lemma SentIsRebuildable(rows: seq<Row>)
    requires WellFormedAll(rows)
    ensures PrefixFree(SerializeAll(rows, [])) && Keyed(SerializeAll(rows, []))
  {
    RowsPrefixFree(rows, []);
    forall i | 0 <= i < |SerializeAll(rows, [])|
      ensures SerializeAll(rows, [])[i].keys != []
    {
      var k := CellFrom(rows, [], i);
    }
  }

  /** Flattening rows and rebuilding the forest gives back the same rows: the same roots, and below
      each the same keys, children, columns and blobs. */
  lemma RebuildUndoesSerialize(paths: Paths, rows: seq<Row>)
    requires WellFormedAll(rows) && Forest(paths, Told(SerializeAll(rows, [])))
    ensures RepresentsAll(paths, [], rows)
  {
    RowsPrefixFree(rows, []);
    AgreesWithTold(SerializeAll(rows, []));
    RowsRebuilt(paths, Told(SerializeAll(rows, [])), [], rows);
  }

  // ---- A single tree ----

  function Rest(c: Cell): Cell {
    if c.keys == [] then c else c.(keys := c.keys[1..])
  }

  /** Cells addressed from their common root. */
  function Rests(cells: seq<Cell>): (r: seq<Cell>)
    ensures |r| == |cells| && forall i :: 0 <= i < |cells| ==> r[i] == Rest(cells[i])
  {
    seq(|cells|, i requires 0 <= i < |cells| => Rest(cells[i]))
  }

  /** All cells have the same first key. */
  ghost predicate OneRoot(cells: seq<Cell>, root: int) {
    forall i :: 0 <= i < |cells| ==> InRow(cells[i].keys, root)
  }

  lemma SameHead(root: int, p: Path, q: Path)
    ensures p <= q ==> [root] + p <= [root] + q
  {
  }

  lemma RestsPrefixFree(cells: seq<Cell>, root: int)
    requires PrefixFree(cells) && OneRoot(cells, root)
    ensures PrefixFree(Rests(cells))
  {
    var r := Rests(cells);
    forall i, j | 0 <= i < |r| && 0 <= j < |r| && i != j
      ensures !(r[i].keys <= r[j].keys)
    {
      SameHead(root, r[i].keys, r[j].keys);
      assert cells[i].keys == [root] + r[i].keys && cells[j].keys == [root] + r[j].keys;
    }
  }

  predicate Above(q: Path, p: Path) {
    |q| <= |p| && q == p[..|q|]
  }

  /** A chain taken as a tree by itself. */
  ghost function ChainTree(cs: seq<DbCell>, p: Path): (r: Paths)
    requires |cs| == |p| + 1
    ensures forall q :: q in r <==> Above(q, p)
    ensures forall q :: q in r && Above(q, p) ==> r[q] == cs[|q|]
  {
    map q | q in (set i | 0 <= i <= |p| :: p[..i]) :: cs[|q|]
  }

  lemma ChainHangs(cs: seq<DbCell>, keys: Path, q: Path)
    requires keys != [] && Chain(cs, keys, 0) && Above(q, keys[1..]) && q != []
    ensures Hangs(ChainTree(cs, keys[1..]), q)
  {
    assert Link(cs, keys, 0, |q| - 1) && Link(cs, keys, 0, |q|);
    assert Above(Parent(q), keys[1..]);
  }

  lemma ChainDown(cs: seq<DbCell>, keys: Path, q: Path, k: int)
    requires keys != [] && Chain(cs, keys, 0) && Above(q, keys[1..]) && k in cs[|q|].cells
    ensures Down(ChainTree(cs, keys[1..]), q, k)
  {
    assert Link(cs, keys, 0, |q|);
    assert Above(q + [k], keys[1..]);
  }

  lemma ChainShape(cs: seq<DbCell>, keys: Path)
    requires keys != [] && Chain(cs, keys, 0)
    ensures Shape(ChainTree(cs, keys[1..]))
  {
    var r := ChainTree(cs, keys[1..]);
    assert Above([], keys[1..]);
    forall q | q in r && q != [] ensures Hangs(r, q) { ChainHangs(cs, keys, q); }
    forall q, k | q in r && k in r[q].cells ensures Down(r, q, k) { ChainDown(cs, keys, q, k); }
  }

  lemma ChainForest(cs: seq<DbCell>, keys: Path, columns: Columns)
    requires keys != [] && Chain(cs, keys, 0) && !cs[|cs| - 1].inner && cs[|cs| - 1].columns == columns
    ensures Forest(ChainTree(cs, keys[1..]), map[keys[1..] := columns])
  {
    var p := keys[1..];
    var r, contents := ChainTree(cs, p), map[p := columns];
    ChainShape(cs, keys);
    forall q | q in r
      ensures (r[q].inner <==> q != p) && Covered(contents, q)
    {
      assert Link(cs, keys, 0, |q|);
      assert p in contents && q <= p;
    }
  }

  /** The first cell of a response, as a tree of one branch. */
  method StartTree(cell: Cell) returns (row: DbCell, ghost paths: Paths)
    requires cell.keys != []
    ensures Forest(paths, map[Rest(cell).keys := ColumnsOf(cell)]) && paths[[]] == row && row.key == cell.keys[0]
    ensures forall q :: q in paths ==> fresh(paths[q])
  {
    var keys := cell.keys;
    assert keys[0..] == keys && Above([], keys[1..]);
    ghost var cs;
    row, cs := CreateRow(keys, keys, 0, ColumnsOf(cell));
    paths := ChainTree(cs, keys[1..]);
    assert Link(cs, keys, 0, 0);
    ChainForest(cs, keys, ColumnsOf(cell));
  }

  /** get_db_rows_tree_from_read_response: for cells with a common root none of which is above
      another, the tree holds exactly what the cells say. */
  method RebuildTree(cells: seq<Cell>, ghost root: int) returns (row: DbCell?, ghost paths: Paths)
    requires PrefixFree(cells) && OneRoot(cells, root)
    ensures row == null <==> cells == []
    ensures row != null ==> Forest(paths, Told(Rests(cells))) && paths[[]] == row && row.key == root
  {
    if cells == [] {
      return null, map[];
    }
    ghost var rests := Rests(cells);
    RestsPrefixFree(cells, root);
    row, paths := StartTree(cells[0]);
    ToldNext(rests, 0);
    for i := 1 to |cells|
      invariant Forest(paths, Told(rests[..i])) && paths[[]] == row
      invariant forall q :: q in paths ==> fresh(paths[q])
    {
      assert cells[i].keys[0] == row.key;
      paths := AddToTree(row, cells[i], paths, rests, i);
    }
    assert rests[..|cells|] == rests;
  }

  method AddToTree(row: DbCell, cell: Cell, ghost paths: Paths, ghost rests: seq<Cell>, ghost i: nat)
    returns (ghost paths': Paths)
    requires PrefixFree(rests) && 1 <= i < |rests| && cell.keys != [] && rests[i] == Rest(cell)
    requires Forest(paths, Told(rests[..i])) && paths[[]] == row
    modifies paths.Values`cells
    ensures Forest(paths', Told(rests[..i + 1])) && Grown(paths, paths', rests[i].keys)
    ensures forall q :: q in paths' && q !in paths ==> fresh(paths'[q])
  {
    NextIsFree(rests, i);
    ToldNext(rests, i);
    var p := cell.keys[1..];
    assert !(p <= rests[0].keys) && p[..0] == [];
    paths' := InsertCell(row, p, 0, ColumnsOf(cell), paths, Told(rests[..i]));
  }

  // ---- Rebuilding a single row ----

  lemma {:induction false} RestOfRow(row: Row, prefix: Path, k: int)
    requires WellFormed(row)
    ensures Rests(Serialize(row, [k] + prefix)) == Serialize(row, prefix)
    decreases row
  {
    assert [k] + prefix + [row.key] == [k] + (prefix + [row.key]);
    match row
    case Leaf(_, columns) =>
      assert ([k] + (prefix + [row.key]))[1..] == prefix + [row.key];
    case Inner(_, children) =>
      RestOfRows(children, prefix + [row.key], k);
  }

  lemma {:induction false} RestOfRows(rows: seq<Row>, prefix: Path, k: int)
    requires WellFormedAll(rows)
    ensures Rests(SerializeAll(rows, [k] + prefix)) == SerializeAll(rows, prefix)
    decreases rows
  {
    if rows != [] {
      RestOfRows(rows[..|rows| - 1], prefix, k);
      RestOfRow(rows[|rows| - 1], prefix, k);
      RestsConcat(SerializeAll(rows[..|rows| - 1], [k] + prefix), Serialize(rows[|rows| - 1], [k] + prefix));
    }
  }

  lemma RestsConcat(a: seq<Cell>, b: seq<Cell>)
    ensures Rests(a + b) == Rests(a) + Rests(b)
  {
  }

  /** What a server sends for a single row can be rebuilt as a tree. */
  lemma SentIsOneTree(row: Row)
    requires WellFormed(row)
    ensures PrefixFree(Serialize(row, [])) && OneRoot(Serialize(row, []), row.key)
  {
    RowPrefixFree(row, []);
    forall i | 0 <= i < |Serialize(row, [])|
      ensures InRow(Serialize(row, [])[i].keys, row.key)
    {
      CellsBelow(row, [], i);
    }
  }

  /** Flattening a row and rebuilding the tree gives back the same row. */
  lemma RebuildTreeUndoesSerialize(paths: Paths, row: Row)
    requires WellFormed(row) && Forest(paths, Told(Rests(Serialize(row, [])))) && paths[[]].key == row.key
    ensures Represents(paths, [], row)
  {
    match row
    case Leaf(key, columns) =>
      ColumnsRoundTrip([key], columns);
      assert [] + [key] == [key] && [key][1..] == [];
      var cells := Rests(Serialize(row, []));
      assert cells[0] == CellOf([key], columns).(keys := []);
      assert Told(cells) == map[[] := columns];
    case Inner(key, children) =>
      assert [] + [key] == [key] + [];
      RestOfRows(children, [], key);
      RebuildUndoesSerialize(paths, children);
      RowsPrefixFree(children, []);
      AgreesWithTold(SerializeAll(children, []));
      RowsNotHere(Told(SerializeAll(children, [])), [], children);
  }
}
