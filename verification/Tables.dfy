/** A table of rows nested as deep as they have clustering keys, as a flat map from key path to
    columns. */
module Tables {
  import opened Order
  import opened KeyPaths
  import opened Cells

  // ---- Which columns are keys ----

  /** Schema key i is column i + 1; further clustering keys are taken from column i. */
  function ColIndex(schemaKeys: nat, i: nat): nat {
    if i < schemaKeys then i + 1 else i
  }

  predicate KeysFirst(columnValues: seq<Word>, n: nat) {
    n < |columnValues| && forall i :: 0 <= i <= n ==> columnValues[i].Val?
  }

  /** The path an insert with n clustering keys goes to. */
  function InsertPath(schemaKeys: nat, columnValues: seq<Word>, n: nat): (p: Path)
    requires KeysFirst(columnValues, n)
    ensures |p| == n + 1
  {
    [columnValues[0].v] + seq(n, i requires 0 <= i < n => columnValues[ColIndex(schemaKeys, i)].v)
  }

  /** The path consists of the leading columns exactly when the row has no keys beyond the schema's,
      or repeats the same word in each of the columns that are off by one. */
  lemma InsertPathIff(schemaKeys: nat, columnValues: seq<Word>, n: nat)
    requires KeysFirst(columnValues, n)
    ensures (forall i :: 0 <= i <= n ==> InsertPath(schemaKeys, columnValues, n)[i] == columnValues[i].v)
            <==> forall i :: schemaKeys < i <= n ==> columnValues[i - 1] == columnValues[i]
  {
    var p := InsertPath(schemaKeys, columnValues, n);
    assert forall i :: 1 <= i <= n ==>
      (p[i] == columnValues[i].v <==> i <= schemaKeys || columnValues[i - 1] == columnValues[i]);
  }

  /** With one key in the schema and two in the row, the second clustering key is not column 2. */
  lemma ExtraKeyMisplaced()
    ensures InsertPath(1, [Val(1), Val(2), Val(3), Val(4)], 2) == [1, 2, 2]
  {
  }

  // ---- The table ----

  ghost predicate Tree(paths: Paths, contents: map<Path, Columns>)
    reads paths.Values`inner, paths.Values`cells, paths.Values`columns
  {
    Shape(paths) && Stores(paths, contents)
  }

  /** No stored path goes on where p ends, or ends where p goes on. */
  predicate Compatible(contents: map<Path, Columns>, p: Path) {
    forall q :: q in contents ==> !(q < p) && !(p < q)
  }

  /** A stored path ends above p. */
  predicate EndsAbove(contents: map<Path, Columns>, p: Path) {
    exists q :: q in contents && q < p
  }

  /** On the way to a cell there are no columns. */
  lemma NoColumnsAbove(paths: Paths, contents: map<Path, Columns>, p: Path, q: Path)
    requires Tree(paths, contents) && p in paths && q < p
    ensures q !in contents
  {
    var above := p[..|q| + 1];
    PrefixIn(paths, p, |q| + 1);
    assert Parent(above) == q && Hangs(paths, above);
  }

  /** What is stored fits together. */
  lemma StoredCompatible(paths: Paths, contents: map<Path, Columns>, p: Path)
    requires Tree(paths, contents) && p in contents
    ensures Compatible(contents, p)
  {
    forall q | q in contents
      ensures !(q < p) && !(p < q)
    {
      if q < p {
        NoColumnsAbove(paths, contents, p, q);
      } else if p < q {
        NoColumnsAbove(paths, contents, q, p);
      }
    }
  }

  lemma CompatibleWithFewer(contents: map<Path, Columns>, contents': map<Path, Columns>, p: Path)
    requires Compatible(contents', p) && forall q :: q in contents ==> q in contents'
    ensures Compatible(contents, p)
  {
  }

  /** One step down to keys[..i + 1], adding the cell if it is missing. */
  method StepInto(cell: DbCell, keys: Path, i: nat, ghost paths: Paths, ghost contents: map<Path, Columns>)
    returns (c: DbCell, ghost paths': Paths, ghost contents': map<Path, Columns>)
    requires Tree(paths, contents) && i < |keys| && keys[..i] in paths && cell == paths[keys[..i]] && cell.inner
    modifies cell`cells
    ensures Tree(paths', contents') && keys[..i + 1] in paths' && c == paths'[keys[..i + 1]]
    ensures paths' == paths || (paths' == paths[keys[..i + 1] := c] && keys[..i + 1] !in paths && fresh(c))
    ensures contents' == contents || (i + 1 == |keys| && contents' == contents[keys := NO_COLUMNS])
    ensures keys[..i + 1] in paths || c.inner == (i + 1 < |keys|)
  {
    StepDown(paths, keys, i);
    ghost var p := keys[..i + 1];
    if keys[i] in cell.cells {
      c, paths', contents' := cell.cells[keys[i]], paths, contents;
    } else {
      assert Parent(p) == keys[..i] && (i + 1 == |keys| ==> p == keys);
      c, paths', contents' := NewCell(cell, keys[i], i + 1 < |keys|, paths, contents, p);
    }
  }

  /** The walk down to keys has got to keys[..i], and has added nothing but missing cells on the way. */
  ghost predicate Walked(paths: Paths, contents: map<Path, Columns>, paths': Paths, contents': map<Path, Columns>,
                         keys: Path, i: nat, cell: DbCell)
    reads cell`inner
  {
    && i <= |keys| && keys[..i] in paths' && cell == paths'[keys[..i]]
    && Grown(paths, paths', keys) && (forall q :: q in paths' && q !in paths ==> |q| <= i)
    && (contents' == contents || (i == |keys| && contents' == contents[keys := NO_COLUMNS]))
    && (keys[..i] in paths || cell.inner == (i < |keys|))
  }

  lemma WalkedOn(paths: Paths, contents: map<Path, Columns>, mid: Paths, paths': Paths, contents': map<Path, Columns>,
                 keys: Path, i: nat, above: DbCell, cell: DbCell)
    requires i < |keys| && Walked(paths, contents, mid, contents, keys, i, above)
    requires keys[..i + 1] in paths' && cell == paths'[keys[..i + 1]] &&
             (paths' == mid || paths' == mid[keys[..i + 1] := cell])
    requires keys[..i + 1] !in mid || paths' == mid
    requires contents' == contents || (i + 1 == |keys| && contents' == contents[keys := NO_COLUMNS])
    requires keys[..i + 1] in mid || cell.inner == (i + 1 < |keys|)
    ensures Walked(paths, contents, paths', contents', keys, i + 1, cell)
  {
  }

  method Advance(above: DbCell, keys: Path, i: nat, ghost paths: Paths, ghost contents: map<Path, Columns>,
                 ghost mid: Paths)
    returns (cell: DbCell, ghost paths': Paths, ghost contents': map<Path, Columns>)
    requires Tree(mid, contents) && i < |keys| && Walked(paths, contents, mid, contents, keys, i, above) && above.inner
    modifies above`cells
    ensures Tree(paths', contents') && Walked(paths, contents, paths', contents', keys, i + 1, cell)
    ensures paths' == mid || (paths' == mid[keys[..i + 1] := cell] && fresh(cell))
  {
    cell, paths', contents' := StepInto(above, keys, i, mid, contents);
    WalkedOn(paths, contents, mid, paths', contents', keys, i, above, cell);
  }

  /** The walk ends well at the full path, in a cell without children; anywhere else, in a cell
      without children or at the full path, something stored is in the way. */
  lemma WalkEnds(paths: Paths, contents: map<Path, Columns>, paths': Paths, contents': map<Path, Columns>,
                 keys: Path, i: nat, cell: DbCell)
    requires Tree(paths', contents') && Complete(paths, contents) && keys != []
    requires Walked(paths, contents, paths', contents', keys, i, cell) && (i == |keys| || !cell.inner)
    ensures i == |keys| && !cell.inner <==> Compatible(contents, keys)
    ensures i == |keys| ==> keys in paths' && paths'[keys] == cell
  {
    if i < |keys| {
      assert keys[..i] in contents && keys[..i] < keys;
    } else {
      assert keys[..i] == keys;
      if !cell.inner {
        StoredCompatible(paths', contents', keys);
        CompatibleWithFewer(contents, contents', keys);
      } else {
        assert Covered(contents, keys);
        var q :| q in contents && keys <= q;
        assert q != keys;
      }
    }
  }

  /** Walks down from the row to the cell at a key path, adding the cells that are missing. It gets
      there, to a cell without children, unless something stored is in the way. */
  method WalkDown(row: DbCell, keys: Path, ghost paths: Paths, ghost contents: map<Path, Columns>)
    returns (cell: DbCell, fits: bool, ghost paths': Paths, ghost contents': map<Path, Columns>)
    requires Tree(paths, contents) && Complete(paths, contents)
    requires |keys| >= 1 && keys[..1] in paths && row == paths[keys[..1]]
    modifies paths.Values`cells
    ensures fits <==> Compatible(contents, keys)
    ensures fits ==> Tree(paths', contents') && keys in contents' && cell == paths'[keys]
    ensures fits ==> contents' == contents || contents' == contents[keys := NO_COLUMNS]
    ensures fits ==> Grown(paths, paths', keys) && forall q :: q in paths' && q !in paths ==> fresh(paths'[q])
  {
    cell, paths', contents' := row, paths, contents;
    var i := 1;
    while i < |keys|
      invariant 1 <= i <= |keys| && Walked(paths, contents, paths', contents', keys, i, cell)
      invariant Tree(paths', contents') && forall q :: q in paths' && q !in paths ==> fresh(paths'[q])
    {
      if !cell.inner {
        WalkEnds(paths, contents, paths', contents', keys, i, cell);
        return cell, false, paths', contents';
      }
      cell, paths', contents' := Advance(cell, keys, i, paths, contents, paths');
      i := i + 1;
    }
    fits := !cell.inner;
    WalkEnds(paths, contents, paths', contents', keys, i, cell);
  }

  lemma PutTwice<K, V>(m: map<K, V>, k: K, v: V, w: V)
    ensures m[k := v][k := w] == m[k := w]
  {
  }

  /** The existing-row branch of table_insert: the columns of the cell found or added are replaced. */
  method InsertBelow(row: DbCell, keys: Path, columns: Columns, ghost paths: Paths, ghost contents: map<Path, Columns>)
    returns (fits: bool, ghost paths': Paths)
    requires Tree(paths, contents) && Complete(paths, contents)
    requires |keys| >= 1 && keys[..1] in paths && row == paths[keys[..1]]
    modifies paths.Values
    ensures fits <==> Compatible(contents, keys)
    ensures fits ==> Tree(paths', contents[keys := columns]) && Grown(paths, paths', keys)
    ensures fits ==> forall q :: q in paths' && q !in paths ==> fresh(paths'[q])
  {
    var cell;
    ghost var contents';
    cell, fits, paths', contents' := WalkDown(row, keys, paths, contents);
    if fits {
      PutTwice(contents, keys, NO_COLUMNS, columns);
      SetColumns(cell, columns, paths', contents', keys);
    }
  }

  /** The columns a first insert into a row stores: without clustering keys none. */
  function FirstColumns(keys: Path, columns: Columns): Columns {
    if |keys| == 1 then NO_COLUMNS else columns
  }

  /** The new-row branch of table_insert: the whole row is built before it is put into the table. */
  method InsertRow(rows: DbCell, keys: Path, columns: Columns, ghost paths: Paths, ghost contents: map<Path, Columns>)
    returns (ghost paths': Paths)
    requires Tree(paths, contents) && rows.inner
    requires |keys| >= 1 && paths[[]] == rows && keys[0] !in rows.cells
    modifies rows`cells
    ensures Tree(paths', contents[keys := FirstColumns(keys, columns)]) && Grown(paths, paths', keys)
    ensures forall q :: q in paths' && q !in paths ==> fresh(paths'[q])
  {
    assert keys[0..] == keys && keys[..0] == [];
    var row;
    ghost var cs;
    row, paths', cs := HangRow(rows, keys, FirstColumns(keys, columns), paths, contents, keys, 0);
  }

  /** A row that is not there is in nobody's way. */
  lemma NewRowCompatible(paths: Paths, contents: map<Path, Columns>, keys: Path)
    requires Tree(paths, contents) && keys != [] && [] !in contents && keys[..1] !in paths
    ensures Compatible(contents, keys) && keys !in contents
  {
    forall q | q in contents
      ensures !(q <= keys) && !(keys <= q)
    {
      PrefixIn(paths, q, 1);
      assert q[..1] != keys[..1];
    }
  }

  ghost function Inserted(contents: map<Path, Columns>, keys: Path, columns: Columns): map<Path, Columns> {
    contents[keys := if keys in contents then columns else FirstColumns(keys, columns)]
  }

  /** Both branches of table_insert. */
  method InsertAt(rows: DbCell, keys: Path, columns: Columns, ghost paths: Paths, ghost contents: map<Path, Columns>)
    returns (fits: bool, ghost paths': Paths)
    requires Tree(paths, contents) && Complete(paths, contents) && |keys| >= 1 && paths[[]] == rows && rows.inner
    modifies paths.Values
    ensures fits <==> Compatible(contents, keys)
    ensures fits ==>
              Tree(paths', Inserted(contents, keys, columns)) && Complete(paths', Inserted(contents, keys, columns))
    ensures fits ==> Grown(paths, paths', keys) && forall q :: q in paths' && q !in paths ==> fresh(paths'[q])
  {
    StepDown(paths, keys, 0);
    assert keys[..0] == [];
    if keys[0] !in rows.cells {
      NewRowCompatible(paths, contents, keys);
      paths' := InsertRow(rows, keys, columns, paths, contents);
      fits := true;
    } else {
      RowWithoutKeys(paths, contents, keys);
      fits, paths' := InsertBelow(rows.cells[keys[0]], keys, columns, paths, contents);
    }
    if fits {
      CompleteAgain(paths, paths', contents, keys, Inserted(contents, keys, columns)[keys]);
    }
  }

  /** A row that is there, and fits a path of one key, is stored at it. */
  lemma RowWithoutKeys(paths: Paths, contents: map<Path, Columns>, keys: Path)
    requires Tree(paths, contents) && Complete(paths, contents) && keys != [] && keys[..1] in paths
    ensures |keys| == 1 && Compatible(contents, keys) ==> keys in contents
  {
    if |keys| == 1 {
      assert keys[..1] == keys && Covered(contents, keys);
    }
  }

  lemma WithoutRowStores(paths: Paths, contents: map<Path, Columns>, key: int)
    requires Stores(paths, contents) && Complete(paths, contents)
    ensures Stores(WithoutRow(paths, key), WithoutRow(contents, key))
    ensures Complete(WithoutRow(paths, key), WithoutRow(contents, key))
  {
    var r := WithoutRow(contents, key);
    forall p | p in WithoutRow(paths, key) && p != []
      ensures Covered(r, p)
    {
      assert Covered(contents, p);
      var q :| q in contents && p <= q;
      assert q[0] == p[0] && q in r;
    }
  }

  /** Takes a row out of the table. */
  method RemoveRow(rows: DbCell, key: int, ghost paths: Paths)
    requires Shape(paths) && paths[[]] == rows
    modifies rows`cells
    ensures rows.cells == old(rows.cells) - {key} && Shape(WithoutRow(paths, key))
  {
    rows.cells := rows.cells - {key};
    ghost var r := WithoutRow(paths, key);
    forall q | q in r && q != []
      ensures Hangs(r, q)
    {
      assert old(Hangs(paths, q));
      assert Parent(q) != [] ==> Parent(q)[0] == q[0];
    }
    forall q, k | q in r && k in r[q].cells
      ensures Down(r, q, k)
    {
      assert old(k in paths[q].cells);
      assert Down(paths, q, k) && (q + [k])[0] == if q == [] then k else q[0];
    }
  }

  method RemoveAt(rows: DbCell, key: int, ghost paths: Paths, ghost contents: map<Path, Columns>)
    requires Tree(paths, contents) && Complete(paths, contents) && paths[[]] == rows
    modifies rows`cells
    ensures Tree(WithoutRow(paths, key), WithoutRow(contents, key)) &&
            Complete(WithoutRow(paths, key), WithoutRow(contents, key))
  {
    RemoveRow(rows, key, paths);
    WithoutRowStores(paths, contents, key);
  }

  /** Looking up keys finds a cell exactly when a stored path starts with them. */
  lemma LookupFinds(paths: Paths, contents: map<Path, Columns>, keys: Path)
    requires Tree(paths, contents) && Complete(paths, contents) && keys != []
    ensures keys in paths <==> Covered(contents, keys)
  {
    if q :| q in contents && keys <= q {
      PrefixIn(paths, q, |keys|);
      assert q[..|keys|] == keys;
    }
  }

  lemma RowsAreTopCells(paths: Paths, contents: map<Path, Columns>, key: int)
    requires Tree(paths, contents) && Complete(paths, contents)
    ensures key in paths[[]].cells <==> Covered(contents, [key])
  {
    assert [key][..0] == [] && [key][..1] == [key];
    StepDown(paths, [key], 0);
    LookupFinds(paths, contents, [key]);
  }

  lemma EmptyIffNoRows(paths: Paths, contents: map<Path, Columns>)
    requires Tree(paths, contents) && Complete(paths, contents) && [] !in contents
    ensures paths[[]].cells == map[] <==> contents == map[]
  {
    forall key
      ensures key in paths[[]].cells <==> Covered(contents, [key])
    {
      RowsAreTopCells(paths, contents, key);
    }
    if q :| q in contents {
      assert [q[0]] <= q;
      assert Covered(contents, [q[0]]);
    }
  }

  /** A search that ends early at an inner cell has met no columns and misses none. */
  lemma NothingOnTheWay(paths: Paths, contents: map<Path, Columns>, keys: Path, i: nat)
    requires Tree(paths, contents) && i < |keys| && keys[..i] in paths && paths[keys[..i]].inner &&
             keys[..i + 1] !in paths
    ensures keys !in paths && !EndsAbove(contents, keys)
  {
    if keys in paths {
      PrefixIn(paths, keys, i + 1);
    }
    forall q | q < keys
      ensures q !in contents
    {
      if q < keys[..i] {
        NoColumnsAbove(paths, contents, keys[..i], q);
      } else if |q| > i {
        assert q[..i + 1] == keys[..i + 1];
        if q in paths {
          PrefixIn(paths, q, i + 1);
        }
      } else {
        assert q == keys[..i];
      }
    }
  }

  class Table {
    const schemaKeys: nat
    const rows: DbCell
    ghost var paths: Paths
    ghost var contents: map<Path, Columns>

    ghost predicate Valid()
      reads this, paths.Values
    {
      Tree(paths, contents) && Complete(paths, contents) && paths[[]] == rows && rows.inner
    }

    /** A table whose rows have at least `schemaKeys` clustering keys. */
    constructor (schemaKeys: nat)
      ensures Valid() && this.schemaKeys == schemaKeys && contents == map[] && fresh(rows)
    {
      this.schemaKeys := schemaKeys;
      rows := new DbCell(0, true);
      new;
      paths := map[[] := rows];
      contents := map[];
    }

    /** table_search_clustering (and table_search, for one key): the cell at a key path, if there is
        one. Keys beyond a stored path are looked up in a list that is not there. */
    method Search(keys: Path) returns (r: DbCell?, stopped: bool)
      requires Valid() && |keys| >= 1
      ensures stopped <==> EndsAbove(contents, keys)
      ensures !stopped ==> r == if keys in paths then paths[keys] else null
    {
      var cell := rows;
      var i := 0;
      while i < |keys|
        invariant 0 <= i <= |keys|
        invariant keys[..i] in paths && cell == paths[keys[..i]]
      {
        if !cell.inner {
          assert keys[..i] in contents && keys[..i] < keys;
          return null, true;
        }
        StepDown(paths, keys, i);
        if keys[i] !in cell.cells {
          NothingOnTheWay(paths, contents, keys, i);
          return null, false;
        }
        cell := cell.cells[keys[i]];
        i := i + 1;
      }
      assert keys[..i] == keys;
      forall q | q < keys
        ensures q !in contents
      {
        NoColumnsAbove(paths, contents, keys, q);
      }
      return cell, false;
    }

    /** table_insert with n clustering keys, at least as many as the schema has: an update of the flat
        map at one path, whichever branch is taken. It stops the server when a stored path goes on
        where this one ends or the other way round, and the first insert of a row without clustering
        keys stores no columns. */
    method Insert(columnValues: seq<Word>, n: nat, lastBlobSize: nat) returns (fits: bool)
      requires Valid() && n >= schemaKeys && KeysFirst(columnValues, n) && n + 1 < |columnValues|
      modifies this, paths.Values
      ensures fits <==> Compatible(old(contents), InsertPath(schemaKeys, columnValues, n))
      ensures fits ==> Valid() && forall q :: q in paths && q !in old(paths) ==> fresh(paths[q])
      ensures fits ==>
                contents == Inserted(old(contents), InsertPath(schemaKeys, columnValues, n),
                  Columns(columnValues[n + 1..], lastBlobSize))
    {
      var keys := InsertPath(schemaKeys, columnValues, n);
      var columns := Columns(columnValues[n + 1..], lastBlobSize);
      ghost var after;
      fits, after := InsertAt(rows, keys, columns, paths, contents);
      if fits {
        paths, contents := after, Inserted(contents, keys, columns);
      }
    }

    /** table_delete_row: all paths of a row go; the status is 1 if there were none. On an empty table
        a key that looks like the header's makes the deletion free the header of the row list. */
    method DeleteRow(key: int) returns (status: int, headerFreed: bool)
      requires Valid()
      modifies this, rows
      ensures headerFreed <==> old(contents) == map[] && LooksLikeHeader(key)
      ensures !headerFreed ==>
                Valid() && paths == WithoutRow(old(paths), key) && contents == WithoutRow(old(contents), key)
      ensures !headerFreed ==> status == if Covered(old(contents), [key]) then 0 else 1
    {
      RowsAreTopCells(paths, contents, key);
      EmptyIffNoRows(paths, contents);
      status := if key in rows.cells then 0 else 1;
      headerFreed := rows.cells == map[] && LooksLikeHeader(key);
      if !headerFreed {
        RemoveAt(rows, key, paths, contents);
        paths, contents := WithoutRow(paths, key), WithoutRow(contents, key);
      }
    }
  }

  /** table_search_clustering is lookup in the flat map. */
  lemma SearchIsLookup(table: Table, keys: Path)
    requires table.Valid() && keys != []
    ensures keys in table.paths <==> Covered(table.contents, keys)
    ensures keys in table.contents <==> keys in table.paths && !table.paths[keys].inner
    ensures keys in table.contents ==> table.paths[keys].columns == table.contents[keys]
  {
    LookupFinds(table.paths, table.contents, keys);
  }

  ghost predicate AllOfLength(contents: map<Path, Columns>, n: nat) {
    forall q :: q in contents ==> |q| == n
  }

  /** In a table whose rows all have the same number of keys every insert fits and keeps them so, no
      search by that many keys or fewer stops the server, and a search by that many finds columns. */
  lemma SameDepthFits(table: Table, keys: Path, columns: Columns)
    requires table.Valid() && keys != [] && AllOfLength(table.contents, |keys|)
    ensures Compatible(table.contents, keys) && AllOfLength(Inserted(table.contents, keys, columns), |keys|)
    ensures forall p :: p <= keys ==> !EndsAbove(table.contents, p)
    ensures keys in table.paths <==> keys in table.contents
  {
    LookupFinds(table.paths, table.contents, keys);
    if q :| q in table.contents && keys <= q {
      assert q == keys;
    }
  }

  /** A row with one clustering key more does not fit below one that is there. */
  lemma LongerRowDoesNotFit(columns: Columns)
    ensures !Compatible(map[[1, 2] := columns], [1, 2, 3]) && !Compatible(map[[1, 2, 3] := columns], [1, 2])
  {
    assert [1, 2] < [1, 2, 3] && [1, 2] in map[[1, 2] := columns] && [1, 2, 3] in map[[1, 2, 3] := columns];
  }

  /** In a table without clustering keys the columns of a row are lost the first time. */
  lemma FirstInsertLosesColumns(contents: map<Path, Columns>, key: int, columns: Columns)
    requires columns != NO_COLUMNS
    ensures Inserted(contents, [key], columns)[[key]] == columns <==> [key] in contents
    ensures Inserted(Inserted(contents, [key], columns), [key], columns) == contents[[key] := columns]
  {
  }
}
