/** Trees of cells in the heap. A cell holds either child cells by key, or columns. Ghost maps from
    key path to cell describe whole trees: the cell at path p + [k] is the child k of the cell at p. */
module Cells {
  import opened KeyPaths

  /** A column: a word, or a blob, which only the last column of a cell can be. */
  datatype Word = Val(v: int) | Blob(bytes: seq<int>)

  datatype Columns = Columns(words: seq<Word>, lastBlobSize: nat)

  const NO_COLUMNS := Columns([], 0)

  /** The skiplist of children is used at its proved meaning, a finite map; `inner` says that the
      cell has one. */
  class DbCell {
    const key: int
    var inner: bool
    var cells: map<int, DbCell>
    var columns: Columns

    constructor (key: int, inner: bool)
      ensures this.key == key && this.inner == inner && cells == map[] && columns == NO_COLUMNS
    {
      this.key := key;
      this.inner := inner;
      cells := map[];
      columns := NO_COLUMNS;
    }
  }

  function Parent(p: Path): Path
    requires p != []
  {
    p[..|p| - 1]
  }

  function Last(p: Path): int
    requires p != []
  {
    p[|p| - 1]
  }

  type Paths = map<Path, DbCell>

  /** Every cell but the top one hangs off its parent under its own key, nothing else hangs there,
      and no cell occurs twice. */
  ghost predicate Shape(paths: Paths)
    reads paths.Values`inner, paths.Values`cells
  {
    && [] in paths
    && (forall p, q :: p in paths && q in paths && paths[p] == paths[q] ==> p == q)
    && (forall p {:trigger Hangs(paths, p)} :: p in paths && p != [] ==> Hangs(paths, p))
    && (forall p, k {:trigger Down(paths, p, k)} :: p in paths && k in paths[p].cells ==> Down(paths, p, k))
  }

  predicate Down(paths: Paths, p: Path, k: int) {
    p + [k] in paths
  }

  /** The cell at p is where its parent says. */
  ghost predicate Hangs(paths: Paths, p: Path)
    requires p != [] && p in paths
    reads paths.Values`inner, paths.Values`cells
  {
    && Parent(p) in paths
    && var parent := paths[Parent(p)];
    && parent.inner && Last(p) in parent.cells && parent.cells[Last(p)] == paths[p] && paths[p].key == Last(p)
  }

  /** What the tree stores: the columns of the cells without children. */
  ghost predicate Stores(paths: Paths, contents: map<Path, Columns>)
    reads paths.Values`inner, paths.Values`columns
  {
    && (forall p :: p in contents ==> p in paths)
    && (forall p :: p in paths ==> (p in contents <==> !paths[p].inner))
    && (forall p :: p in contents ==> contents[p] == paths[p].columns)
  }

  predicate Covered(contents: map<Path, Columns>, p: Path) {
    exists q :: q in contents && p <= q
  }

  /** No branch is without columns. */
  ghost predicate Complete(paths: Paths, contents: map<Path, Columns>) {
    forall p :: p in paths && p != [] ==> Covered(contents, p)
  }

  /** A tree with more cells on the way to p. */
  ghost predicate Grown(paths: Paths, paths': Paths, p: Path) {
    && (forall q :: q in paths ==> q in paths' && paths'[q] == paths[q])
    && (forall q :: q in paths' && q !in paths ==> q <= p)
  }

  lemma CompleteAgain(paths: Paths, paths': Paths, contents: map<Path, Columns>, p: Path, columns: Columns)
    requires Complete(paths, contents) && Grown(paths, paths', p)
    ensures Complete(paths', contents[p := columns])
  {
    forall q | q in paths' && q != []
      ensures Covered(contents[p := columns], q)
    {
      if q in paths {
        var r :| r in contents && q <= r;
        assert r in contents[p := columns];
      } else {
        assert p in contents[p := columns];
      }
    }
  }

  /** One step of a search: the children of the cell at p[..n] are the paths one longer. */
  lemma StepDown(paths: Paths, p: Path, n: nat)
    requires Shape(paths) && n < |p| && p[..n] in paths
    ensures p[..n + 1] in paths <==> p[n] in paths[p[..n]].cells
    ensures p[n] in paths[p[..n]].cells ==> paths[p[..n + 1]] == paths[p[..n]].cells[p[n]]
  {
    assert p[..n + 1] == p[..n] + [p[n]] && Parent(p[..n + 1]) == p[..n];
    assert p[n] in paths[p[..n]].cells ==> Down(paths, p[..n], p[n]);
    assert p[..n + 1] in paths ==> Hangs(paths, p[..n + 1]);
  }

  /** A well-shaped tree holds all prefixes of its paths. */
  lemma {:induction false} PrefixIn(paths: Paths, p: Path, n: nat)
    requires Shape(paths) && p in paths && n <= |p|
    ensures p[..n] in paths
    decreases |p| - n
  {
    if n < |p| {
      PrefixIn(paths, p, n + 1);
      assert Hangs(paths, p[..n + 1]) && Parent(p[..n + 1]) == p[..n];
    } else {
      assert p[..n] == p;
    }
  }

  // ---- Chains ----

  /** Cells nested one inside the other under the keys p[n..]. */
  ghost predicate Chain(cs: seq<DbCell>, p: Path, n: nat)
    reads cs`inner, cs`cells
  {
    && n < |p| && |cs| == |p| - n
    && (forall i, j :: 0 <= i < j < |cs| ==> cs[i] != cs[j])
    && (forall i :: 0 <= i < |cs| ==> Link(cs, p, n, i))
  }

  ghost predicate Link(cs: seq<DbCell>, p: Path, n: nat, i: nat)
    requires i < |cs| == |p| - n
    reads {cs[i]}`inner, {cs[i]}`cells
  {
    && cs[i].key == p[n + i]
    && if i == |cs| - 1 then cs[i].cells == map[] else cs[i].inner && cs[i].cells == map[p[n + i + 1] := cs[i + 1]]
  }

  /** The paths of a tree after a chain for p[n..] is hung below p[..n]. */
  ghost function Grafted(paths: Paths, cs: seq<DbCell>, p: Path, n: nat): (r: Paths)
    requires n < |p| && |cs| == |p| - n
    ensures forall q :: q in r <==> q in paths || OnChain(q, p, n)
    ensures forall q :: q in r ==> r[q] == if OnChain(q, p, n) then cs[|q| - n - 1] else paths[q]
  {
    map q | q in paths.Keys + (set i | n < i <= |p| :: p[..i]) :: if OnChain(q, p, n) then cs[|q| - n - 1] else paths[q]
  }

  predicate OnChain(q: Path, p: Path, n: nat) {
    n < |q| <= |p| && q == p[..|q|]
  }

  /** A tree that is well shaped but for one child link too many. */
  ghost predicate ShapeBut(paths: Paths, p0: Path, k0: int)
    reads paths.Values`inner, paths.Values`cells
  {
    && [] in paths
    && (forall p, q :: p in paths && q in paths && paths[p] == paths[q] ==> p == q)
    && (forall p {:trigger Hangs(paths, p)} :: p in paths && p != [] ==> Hangs(paths, p))
    && (forall p, k {:trigger Down(paths, p, k)} ::
          p in paths && k in paths[p].cells ==> Down(paths, p, k) || (p == p0 && k == k0))
  }

  ghost predicate Apart(paths: Paths, cs: seq<DbCell>) {
    forall p, i :: p in paths && 0 <= i < |cs| ==> paths[p] != cs[i]
  }

  lemma GraftHangs(paths: Paths, cs: seq<DbCell>, p: Path, n: nat, q: Path)
    requires Chain(cs, p, n) && p[..n] in paths && p[..n + 1] !in paths && ShapeBut(paths, p[..n], p[n])
    requires paths[p[..n]].inner && p[n] in paths[p[..n]].cells && paths[p[..n]].cells[p[n]] == cs[0]
    requires q in Grafted(paths, cs, p, n) && q != []
    ensures Hangs(Grafted(paths, cs, p, n), q)
  {
    var r := Grafted(paths, cs, p, n);
    if OnChain(q, p, n) {
      var i := |q| - n - 1;
      assert Parent(q) == p[..n + i] && Link(cs, p, n, i);
      if i == 0 {
        assert !OnChain(p[..n], p, n);
      } else {
        assert Link(cs, p, n, i - 1) && OnChain(Parent(q), p, n);
      }
    } else {
      assert Hangs(paths, q);
      ShapeIsClosed(paths);
      NotOnChain(paths, p, n, Parent(q));
    }
  }

  /** Every path's parent is there. */
  ghost predicate Closed(paths: Paths) {
    forall p {:trigger HasParent(paths, p)} :: p in paths && p != [] ==> HasParent(paths, p)
  }

  predicate HasParent(paths: Paths, p: Path)
    requires p != []
  {
    Parent(p) in paths
  }

  lemma ShapeIsClosed(paths: Paths)
    requires forall r {:trigger Hangs(paths, r)} :: r in paths && r != [] ==> Hangs(paths, r)
    ensures Closed(paths)
  {
    forall p | p in paths && p != []
      ensures HasParent(paths, p)
    {
      assert Hangs(paths, p);
    }
  }

  /** Below p[..n] there was nothing on the way to p. */
  lemma {:induction false} NotOnChain(paths: Paths, p: Path, n: nat, q: Path)
    requires n < |p| && p[..n + 1] !in paths && q in paths
    requires Closed(paths)
    ensures !OnChain(q, p, n)
    decreases |q|
  {
    if OnChain(q, p, n) && |q| > n + 1 {
      assert Parent(q) == p[..|q| - 1];
      assert HasParent(paths, q);
      NotOnChain(paths, p, n, Parent(q));
    }
  }

  lemma GraftDown(paths: Paths, cs: seq<DbCell>, p: Path, n: nat, q: Path, k: int)
    requires Chain(cs, p, n) && p[..n] in paths && p[..n + 1] !in paths && ShapeBut(paths, p[..n], p[n])
    requires q in Grafted(paths, cs, p, n) && k in Grafted(paths, cs, p, n)[q].cells
    ensures Down(Grafted(paths, cs, p, n), q, k)
  {
    if OnChain(q, p, n) {
      assert Link(cs, p, n, |q| - n - 1);
      assert q + [k] == p[..|q| + 1];
    } else {
      assert Down(paths, q, k) || q + [k] == p[..n + 1];
    }
  }

  lemma GraftShape(paths: Paths, cs: seq<DbCell>, p: Path, n: nat)
    requires Chain(cs, p, n) && p[..n] in paths && p[..n + 1] !in paths && ShapeBut(paths, p[..n], p[n]) &&
             Apart(paths, cs)
    requires paths[p[..n]].inner && p[n] in paths[p[..n]].cells && paths[p[..n]].cells[p[n]] == cs[0]
    ensures Shape(Grafted(paths, cs, p, n))
  {
    var r := Grafted(paths, cs, p, n);
    forall q | q in r && q != []
      ensures Hangs(r, q)
    {
      GraftHangs(paths, cs, p, n, q);
    }
    forall q, k | q in r && k in r[q].cells
      ensures Down(r, q, k)
    {
      GraftDown(paths, cs, p, n, q, k);
    }
    GraftInjective(paths, cs, p, n);
  }

  lemma GraftInjective(paths: Paths, cs: seq<DbCell>, p: Path, n: nat)
    requires n < |p| && |cs| == |p| - n && (forall i, j :: 0 <= i < j < |cs| ==> cs[i] != cs[j]) && Apart(paths, cs)
    requires forall p, q :: p in paths && q in paths && paths[p] == paths[q] ==> p == q
    ensures var r := Grafted(paths, cs, p, n); forall a, b :: a in r && b in r && r[a] == r[b] ==> a == b
  {
  }

  lemma GraftAt(paths: Paths, cs: seq<DbCell>, p: Path, n: nat, q: Path)
    requires Chain(cs, p, n) && p[..n + 1] !in paths
    requires Closed(paths)
    requires q in Grafted(paths, cs, p, n)
    ensures var c := Grafted(paths, cs, p, n)[q];
            if q in paths then c == paths[q] && q != p
            else c.inner || (q == p && c == cs[|cs| - 1])
  {
    if q in paths {
      NotOnChain(paths, p, n, q);
      assert OnChain(p, p, n);
    } else {
      assert Link(cs, p, n, |q| - n - 1);
      assert |q| == |p| ==> q == p;
    }
  }

  /** Growing a tree adds the columns of the new cells that have no children. */
  lemma StoresMore(paths: Paths, r: Paths, p: Path, contents: map<Path, Columns>)
    requires Stores(paths, contents) && p in r && p !in paths
    requires forall q :: q in paths ==> q in r && r[q] == paths[q]
    requires forall q :: q in r && q !in paths ==> r[q].inner || q == p
    ensures Stores(r, if r[p].inner then contents else contents[p := r[p].columns])
  {
  }

  lemma GraftStores(paths: Paths, cs: seq<DbCell>, p: Path, n: nat, contents: map<Path, Columns>)
    requires Chain(cs, p, n) && p[..n + 1] !in paths && Stores(paths, contents)
    requires Closed(paths)
    ensures var c := cs[|cs| - 1];
            Stores(Grafted(paths, cs, p, n), if c.inner then contents else contents[p := c.columns])
  {
    var r := Grafted(paths, cs, p, n);
    assert OnChain(p, p, n);
    GraftAt(paths, cs, p, n, p);
    forall q | q in r
      ensures if q in paths then r[q] == paths[q] && q != p else r[q].inner || q == p
    {
      GraftAt(paths, cs, p, n, q);
    }
    StoresMore(paths, r, p, contents);
  }

  /** Grafting a single cell adds one path. */
  lemma GraftOne(paths: Paths, c: DbCell, p: Path, n: nat)
    requires |p| == n + 1
    ensures Grafted(paths, [c], p, n) == paths[p := c]
  {
    var r := Grafted(paths, [c], p, n);
    assert OnChain(p, p, n);
    assert forall q :: OnChain(q, p, n) ==> q == p;
  }

  lemma ExtendChain(cs: seq<DbCell>, c: DbCell, p: Path, n: nat)
    requires cs != [] && |cs| == |p| - n - 1 && c !in cs
    requires forall i, j :: 0 <= i < j < |cs| ==> cs[i] != cs[j]
    requires var p0 := Parent(p); forall i :: 0 <= i < |cs| - 1 ==> Link(cs, p0, n, i)
    requires var m := |cs| - 1;
             cs[m].key == p[n + m] && cs[m].inner && cs[m].cells == map[p[n + m + 1] := c]
    requires c.key == Last(p) && c.cells == map[]
    ensures Chain(cs + [c], p, n)
  {
    var cs' := cs + [c];
    forall i | 0 <= i < |cs'|
      ensures Link(cs', p, n, i)
    {
      if i < |cs| - 1 {
        assert Link(cs, Parent(p), n, i);
      }
    }
  }

  // ---- Building ----

  /** create_db_row_schemaless and create_db_row_schemaless2: a new row nested as deep as there are keys. */
  method CreateRow(keys: Path, ghost p: Path, ghost n: nat, columns: Columns)
    returns (row: DbCell, ghost cs: seq<DbCell>)
    requires n < |p| && keys == p[n..]
    ensures Chain(cs, p, n) && row == cs[0]
    ensures forall i :: 0 <= i < |cs| ==> fresh(cs[i])
    ensures !cs[|cs| - 1].inner && cs[|cs| - 1].columns == columns
  {
    row := new DbCell(keys[0], false);
    var cell := row;
    cs := [row];
    assert Link(cs, p[..n + 1], n, 0);
    var i := 1;
    while i < |keys|
      invariant 1 <= i <= |keys| && |cs| == i && cs[0] == row && cs[i - 1] == cell && !cell.inner
      invariant forall j :: 0 <= j < |cs| ==> fresh(cs[j])
      invariant Chain(cs, p[..n + i], n)
    {
      var newCell := new DbCell(keys[i], false);
      assert Link(cs, p[..n + i], n, i - 1) && Parent(p[..n + i + 1]) == p[..n + i];
      cell.inner := true;
      cell.cells := map[keys[i] := newCell];
      ExtendChain(cs, newCell, p[..n + i + 1], n);
      cell := newCell;
      cs := cs + [newCell];
      i := i + 1;
    }
    assert p[..n + i] == p;
    cell.columns := columns;
  }

  /** Puts a new row below an existing cell. */
  method Hang(cell: DbCell, row: DbCell, ghost paths: Paths, ghost cs: seq<DbCell>, ghost p: Path, ghost n: nat)
    returns (ghost r: Paths)
    requires Shape(paths) && Chain(cs, p, n) && Apart(paths, cs) && row == cs[0]
    requires p[..n] in paths && paths[p[..n]] == cell && cell.inner && row.key !in cell.cells
    modifies cell`cells
    ensures cell.cells == old(cell.cells)[row.key := row]
    ensures r == Grafted(paths, cs, p, n) && Shape(r) && p[..n + 1] !in paths
  {
    assert Link(cs, p, n, 0);
    StepDown(paths, p, n);
    cell.cells := cell.cells[row.key := row];
    forall q | q in paths && q != []
      ensures Hangs(paths, q)
    {
      assert old(Hangs(paths, q));
      assert q == Parent(q) + [Last(q)];
      assert p[..n + 1] == p[..n] + [p[n]];
    }
    r := Grafted(paths, cs, p, n);
    GraftShape(paths, cs, p, n);
  }

  /** Hangs a new cell below the cell at p[..n]. */
  method NewCell(cell: DbCell, key: int, inner: bool, ghost paths: Paths, ghost contents: map<Path, Columns>,
                 ghost p: Path)
    returns (c: DbCell, ghost paths': Paths, ghost contents': map<Path, Columns>)
    requires Shape(paths) && Stores(paths, contents) && p != [] && key == Last(p)
    requires Parent(p) in paths && paths[Parent(p)] == cell && cell.inner && key !in cell.cells
    modifies cell`cells
    ensures fresh(c) && c.inner == inner && p !in paths
    ensures paths' == paths[p := c] && contents' == if inner then contents else contents[p := NO_COLUMNS]
    ensures Shape(paths') && Stores(paths', contents')
  {
    c := new DbCell(key, inner);
    assert Link([c], p, |p| - 1, 0);
    paths' := Hang(cell, c, paths, [c], p, |p| - 1);
    contents' := if inner then contents else contents[p := NO_COLUMNS];
    GraftOne(paths, c, p, |p| - 1);
    StoresMore(paths, paths', p, contents);
  }

  method SetColumns(cell: DbCell, columns: Columns, ghost paths: Paths, ghost contents: map<Path, Columns>,
                    ghost p: Path)
    requires Shape(paths) && Stores(paths, contents) && p in contents && paths[p] == cell
    modifies cell`columns
    ensures Shape(paths) && Stores(paths, contents[p := columns])
  {
    cell.columns := columns;
  }

  /** Builds a row for p[n..] and puts it below the cell at p[..n]. */
  method HangRow(cell: DbCell, keys: Path, columns: Columns, ghost paths: Paths, ghost contents: map<Path, Columns>,
                 ghost p: Path, ghost n: nat) returns (row: DbCell, ghost paths': Paths, ghost cs: seq<DbCell>)
    requires Shape(paths) && Stores(paths, contents) && n < |p| && keys == p[n..]
    requires p[..n] in paths && paths[p[..n]] == cell && cell.inner && keys[0] !in cell.cells
    modifies cell`cells
    ensures Shape(paths') && Stores(paths', contents[p := columns]) && Grown(paths, paths', p) && p in paths'
    ensures Chain(cs, p, n) && paths' == Grafted(paths, cs, p, n) && p[..n + 1] !in paths && !cs[|cs| - 1].inner
    ensures forall i :: 0 <= i < |cs| ==> fresh(cs[i])
    ensures row == cs[0] && cell.cells == old(cell.cells)[keys[0] := row]
  {
    row, cs := CreateRow(keys, p, n, columns);
    assert Link(cs, p, n, 0) && OnChain(p, p, n);
    ShapeIsClosed(paths);
    paths' := Hang(cell, row, paths, cs, p, n);
    GraftStores(paths, cs, p, n, contents);
    GraftGrown(paths, cs, p, n);
  }

  lemma GraftGrown(paths: Paths, cs: seq<DbCell>, p: Path, n: nat)
    requires Chain(cs, p, n) && p[..n + 1] !in paths && Closed(paths)
    ensures Grown(paths, Grafted(paths, cs, p, n), p)
  {
    forall q | q in Grafted(paths, cs, p, n)
      ensures if q in paths then Grafted(paths, cs, p, n)[q] == paths[q] else q <= p
    {
      GraftAt(paths, cs, p, n, q);
    }
  }
}
