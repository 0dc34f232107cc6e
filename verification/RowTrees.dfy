/** Read responses: a server flattens the rows it found into a list of cells, each with its full key
    path, after counting how many there will be and how long the paths can get. */
module RowTrees {
  import opened SortedSeq
  import opened KeyPaths
  import opened Cells

  /** A row as the server finds it: children in key order. */
  datatype Row = Leaf(key: int, columns: Columns) | Inner(key: int, children: seq<Row>)

  /** All columns are words, but for a last one that is a blob of the recorded size. */
  predicate WellFormedColumns(c: Columns) {
    && c.words != []
    && (forall i :: 0 <= i < |c.words| - 1 ==> c.words[i].Val?)
    && var last := c.words[|c.words| - 1];
    if c.lastBlobSize == 0 then last.Val? else last.Blob? && |last.bytes| == c.lastBlobSize
  }

  predicate WellFormed(row: Row) {
    match row
    case Leaf(_, columns) => WellFormedColumns(columns)
    case Inner(_, children) => children != [] && WellFormedAll(children)
  }

  predicate WellFormedAll(rows: seq<Row>) {
    && (forall i :: 0 <= i < |rows| ==> WellFormed(rows[i]))
    && (forall i, j :: 0 <= i < j < |rows| ==> rows[i].key < rows[j].key)
  }

  /** A row in which leaves may still be without columns, as after the first insert of a row without
      clustering keys. */
  predicate Shaped(row: Row) {
    match row
    case Leaf(_, columns) => columns == NO_COLUMNS || WellFormedColumns(columns)
    case Inner(_, children) => children != [] && ShapedAll(children)
  }

  predicate ShapedAll(rows: seq<Row>) {
    && (forall i :: 0 <= i < |rows| ==> Shaped(rows[i]))
    && (forall i, j :: 0 <= i < j < |rows| ==> rows[i].key < rows[j].key)
  }

  predicate HasColumns(row: Row)
    decreases row
  {
    match row
    case Leaf(_, columns) => columns.words != []
    case Inner(_, children) => forall i :: 0 <= i < |children| ==> HasColumns(children[i])
  }

  // ---- Cells ----

  datatype Cell = Cell(keys: Path, columns: seq<int>, lastBlob: Option<seq<int>>, lastBlobSize: nat)

  function Vals(words: seq<Word>): (r: seq<int>)
    requires forall i :: 0 <= i < |words| ==> words[i].Val?
    ensures |r| == |words|
  {
    seq(|words|, i requires 0 <= i < |words| => words[i].v)
  }

  /** copy_cell, as serialize_cells calls it. */
  function CellOf(keys: Path, c: Columns): Cell
    requires WellFormedColumns(c)
  {
    var n := |c.words| - 1;
    if c.lastBlobSize <= 0 then Cell(keys, Vals(c.words), None, 0)
    else Cell(keys, Vals(c.words[..n]), Some(c.words[n].bytes), c.lastBlobSize)
  }

  /** The columns create_db_row_schemaless2 gives to the cell it builds. */
  function ColumnsOf(c: Cell): Columns {
    Columns(seq(|c.columns|, i requires 0 <= i < |c.columns| => Val(c.columns[i]))
              + (if c.lastBlob.Some? then [Blob(c.lastBlob.value)] else []),
            c.lastBlobSize)
  }

  lemma ColumnsRoundTrip(keys: Path, c: Columns)
    requires WellFormedColumns(c)
    ensures ColumnsOf(CellOf(keys, c)) == c
  {
    assert ColumnsOf(CellOf(keys, c)).words == c.words;
  }

  // ---- Flattening ----

  function Serialize(row: Row, prefix: Path): seq<Cell>
    requires WellFormed(row)
    decreases row
  {
    match row
    case Leaf(key, columns) => [CellOf(prefix + [key], columns)]
    case Inner(key, children) => SerializeAll(children, prefix + [key])
  }

  function SerializeAll(rows: seq<Row>, prefix: Path): seq<Cell>
    requires WellFormedAll(rows)
    decreases rows
  {
    if rows == [] then []
    else SerializeAll(rows[..|rows| - 1], prefix) + Serialize(rows[|rows| - 1], prefix)
  }

  function Leaves(row: Row): nat
    decreases row
  {
    match row
    case Leaf(_, _) => 1
    case Inner(_, children) => LeavesAll(children)
  }

  function LeavesAll(rows: seq<Row>): nat
    decreases rows
  {
    if rows == [] then 0 else LeavesAll(rows[..|rows| - 1]) + Leaves(rows[|rows| - 1])
  }

  function InnerNodes(row: Row): nat
    decreases row
  {
    match row
    case Leaf(_, _) => 0
    case Inner(_, children) => 1 + InnerNodesAll(children)
  }

  function InnerNodesAll(rows: seq<Row>): nat
    decreases rows
  {
    if rows == [] then 0 else InnerNodesAll(rows[..|rows| - 1]) + InnerNodes(rows[|rows| - 1])
  }

  /** Every leaf is at most `room` levels down. */
  predicate Fits(row: Row, room: int)
    decreases row
  {
    match row
    case Leaf(_, _) => room >= 1
    case Inner(_, children) => forall i :: 0 <= i < |children| ==> Fits(children[i], room - 1)
  }

  /** Counting sees as many cells as flattening emits. */
  lemma {:induction false} CountMatches(row: Row, prefix: Path)
    requires WellFormed(row)
    ensures |Serialize(row, prefix)| == Leaves(row)
    decreases row
  {
    if row.Inner? {
      CountMatchesAll(row.children, prefix + [row.key]);
    }
  }

  lemma {:induction false} CountMatchesAll(rows: seq<Row>, prefix: Path)
    requires WellFormedAll(rows)
    ensures |SerializeAll(rows, prefix)| == LeavesAll(rows)
    decreases rows
  {
    if rows != [] {
      CountMatchesAll(rows[..|rows| - 1], prefix);
      CountMatches(rows[|rows| - 1], prefix);
    }
  }

  lemma {:induction false} FitsMore(row: Row, room: int, more: int)
    requires Fits(row, room) && room <= more
    ensures Fits(row, more)
    decreases row
  {
    if row.Inner? {
      forall i | 0 <= i < |row.children|
        ensures Fits(row.children[i], more - 1)
      {
        FitsMore(row.children[i], room - 1, more - 1);
      }
    }
  }

  /** The depth count_cells computes grows with every inner cell, on whichever level; that is enough
      for the longest path. */
  lemma {:induction false} DepthBound(row: Row)
    ensures Fits(row, 1 + InnerNodes(row))
    decreases row
  {
    if row.Inner? {
      forall i | 0 <= i < |row.children|
        ensures Fits(row.children[i], 1 + InnerNodesAll(row.children))
      {
        DepthBound(row.children[i]);
        OneOfAll(row.children, i);
        FitsMore(row.children[i], 1 + InnerNodes(row.children[i]), 1 + InnerNodesAll(row.children));
      }
    }
  }

  lemma {:induction false} OneOfAll(rows: seq<Row>, i: nat)
    requires i < |rows|
    ensures InnerNodes(rows[i]) <= InnerNodesAll(rows)
  {
    if i < |rows| - 1 {
      OneOfAll(rows[..|rows| - 1], i);
    }
  }

  /** No emitted path is longer than the room the leaves fit in. */
  lemma {:induction false} PathsFit(row: Row, prefix: Path, room: int, i: nat)
    requires WellFormed(row) && Fits(row, room) && i < |Serialize(row, prefix)|
    ensures |Serialize(row, prefix)[i].keys| <= |prefix| + room
    decreases row
  {
    if row.Inner? {
      PathsFitAll(row.children, prefix + [row.key], room - 1, i);
    }
  }

  lemma {:induction false} PathsFitAll(rows: seq<Row>, prefix: Path, room: int, i: nat)
    requires WellFormedAll(rows) && i < |SerializeAll(rows, prefix)|
    requires forall j :: 0 <= j < |rows| ==> Fits(rows[j], room)
    ensures |SerializeAll(rows, prefix)[i].keys| <= |prefix| + room
    decreases rows
  {
    var n := |SerializeAll(rows[..|rows| - 1], prefix)|;
    if i < n {
      PathsFitAll(rows[..|rows| - 1], prefix, room, i);
    } else {
      PathsFit(rows[|rows| - 1], prefix, room, i - n);
    }
  }

  // ---- The server's methods ----

  /** count_cells, with the depth it accumulates. */
  method CountCells(row: Row, maxDepth: nat) returns (noCells: nat, depth: nat)
    ensures noCells == Leaves(row) && depth == maxDepth + InnerNodes(row)
    decreases row
  {
    if row.Leaf? {
      return 1, maxDepth;
    }
    noCells, depth := 0, maxDepth + 1;
    var children := row.children;
    for i := 0 to |children|
      invariant noCells == LeavesAll(children[..i]) && depth == maxDepth + 1 + InnerNodesAll(children[..i])
    {
      var n;
      assert children[..i + 1][..i] == children[..i];
      n, depth := CountCells(children[i], depth);
      noCells := noCells + n;
    }
    assert children[..|children|] == children;
  }

  /** The assertions of serialize_cells: every leaf has columns and is at least as deep as the schema
      has keys. */
  predicate Sends(row: Row, depth: int, schemaKeys: int)
    decreases row
  {
    match row
    case Leaf(_, columns) => columns.words != [] && depth >= schemaKeys
    case Inner(_, children) => forall i :: 0 <= i < |children| ==> Sends(children[i], depth + 1, schemaKeys)
  }

  /** The buffer has been filled from `at` to `next`, and nowhere else. */
  ghost predicate Filled(was: seq<Cell>, now: seq<Cell>, at: nat, next: nat, cells: seq<Cell>) {
    && |was| == |now| && at <= next <= |now|
    && now[..at] == was[..at] && now[at..next] == cells && now[next..] == was[next..]
  }

  lemma FilledTwice(was: seq<Cell>, mid: seq<Cell>, now: seq<Cell>, at: nat, m: nat, next: nat, a: seq<Cell>,
                    b: seq<Cell>)
    requires Filled(was, mid, at, m, a) && Filled(mid, now, m, next, b)
    ensures Filled(was, now, at, next, a + b)
  {
    assert now[..at] == now[..m][..at] && mid[..at] == mid[..m][..at];
    assert now[at..next] == now[..m][at..] + now[m..next] && mid[at..m] == mid[..m][at..];
    assert mid[next..] == mid[m..][next - m..] && was[next..] == was[m..][next - m..];
  }

  /** serialize_cells: the cells go to consecutive places of the output, and the shared path buffer
      is only changed from this row's level on. The assertions may stop the server on the way. */
  method SerializeCells(row: Row, cells: array<Cell>, at: nat, keyPath: array<int>, depth: nat, schemaKeys: nat)
    returns (next: nat, passed: bool)
    requires Shaped(row) && depth >= 1 && Fits(row, keyPath.Length - depth + 1)
    requires at + Leaves(row) <= cells.Length
    modifies cells, keyPath
    ensures passed <==> Sends(row, depth, schemaKeys)
    ensures depth <= keyPath.Length
    ensures passed ==> WellFormed(row) && next == at + Leaves(row) && keyPath[..depth - 1] == old(keyPath[..depth - 1])
    ensures passed ==> Filled(old(cells[..]), cells[..], at, next, Serialize(row, old(keyPath[..depth - 1])))
    decreases row
  {
    assert depth <= keyPath.Length by {
      FirstFits(row, keyPath.Length - depth + 1);
    }
    keyPath[depth - 1] := row.key;
    assert keyPath[..depth] == old(keyPath[..depth - 1]) + [row.key];
    if row.Leaf? {
      if row.columns.words == [] || depth < schemaKeys {
        return at, false;
      }
      cells[at] := CellOf(keyPath[..depth], row.columns);
      return at + 1, true;
    }
    next, passed := SerializeRows(row.children, cells, at, keyPath, depth + 1, schemaKeys);
    assert keyPath[..depth - 1] == keyPath[..depth][..depth - 1];
  }

  /** Rows next to each other, as the children of a cell or as the results of a range query. */
  method SerializeRows(rows: seq<Row>, cells: array<Cell>, at: nat, keyPath: array<int>, depth: nat, schemaKeys: nat)
    returns (next: nat, passed: bool)
    requires ShapedAll(rows) && 1 <= depth <= keyPath.Length + 1 && at + LeavesAll(rows) <= cells.Length
    requires forall i :: 0 <= i < |rows| ==> Fits(rows[i], keyPath.Length - depth + 1)
    modifies cells, keyPath
    ensures passed <==> forall i :: 0 <= i < |rows| ==> Sends(rows[i], depth, schemaKeys)
    ensures passed ==>
              WellFormedAll(rows) && next == at + LeavesAll(rows) && keyPath[..depth - 1] == old(keyPath[..depth - 1])
    ensures passed ==> Filled(old(cells[..]), cells[..], at, next, SerializeAll(rows, old(keyPath[..depth - 1])))
    decreases rows
  {
    ghost var prefix := keyPath[..depth - 1];
    next := at;
    for i := 0 to |rows|
      invariant forall j :: 0 <= j < i ==> Sends(rows[j], depth, schemaKeys) && WellFormed(rows[j])
      invariant WellFormedAll(rows[..i])
      invariant next == at + LeavesAll(rows[..i]) && keyPath[..depth - 1] == prefix
      invariant Filled(old(cells[..]), cells[..], at, next, SerializeAll(rows[..i], prefix))
    {
      LeavesUpTo(rows, i + 1);
      assert rows[..i + 1][..i] == rows[..i];
      ghost var mid, m := cells[..], next;
      next, passed := SerializeCells(rows[i], cells, next, keyPath, depth, schemaKeys);
      if !passed {
        return;
      }
      FilledTwice(old(cells[..]), mid, cells[..], at, m, next, SerializeAll(rows[..i], prefix),
        Serialize(rows[i], prefix));
    }
    assert rows[..|rows|] == rows;
    passed := true;
  }

  lemma {:induction false} LeavesUpTo(rows: seq<Row>, n: nat)
    requires n <= |rows|
    ensures LeavesAll(rows[..n]) <= LeavesAll(rows)
    decreases |rows| - n
  {
    if n < |rows| {
      LeavesUpTo(rows, n + 1);
      assert rows[..n + 1][..n] == rows[..n];
    } else {
      assert rows[..n] == rows;
    }
  }

  lemma {:induction false} FirstFits(row: Row, room: int)
    requires Shaped(row) && Fits(row, room)
    ensures room >= 1
    decreases row
  {
    if row.Inner? {
      FirstFits(row.children[0], room - 1);
    }
  }

  /** The assertions on the way of a single read. A single cell has to have as many columns as the
      schema has in all, keys included. */
  predicate Answered(row: Row, schemaKeys: int, minNoCols: int) {
    match row
    case Leaf(_, columns) => columns.words != [] && |columns.words| >= minNoCols
    case Inner(_, _) => Sends(row, 1, schemaKeys)
  }

  /** get_read_response_packet: nothing, one cell, or a whole subtree. No response is sent when an
      assertion stops the server. */
  method ReadResponse(result: Option<Row>, schemaKeys: nat, minNoCols: nat) returns (cells: Option<seq<Cell>>)
    requires result.Some? ==> Shaped(result.value)
    ensures cells.None? <==> result.Some? && !Answered(result.value, schemaKeys, minNoCols)
    ensures cells.Some? && result.None? ==> cells.value == []
    ensures cells.Some? && result.Some? ==> WellFormed(result.value) && cells.value == Serialize(result.value, [])
  {
    if result.None? {
      return Some([]);
    }
    var row := result.value;
    if row.Leaf? {
      if |row.columns.words| == 0 || |row.columns.words| < minNoCols {
        return None;
      }
      assert [] + [row.key] == [row.key];
      return Some([CellOf([row.key], row.columns)]);
    }
    var noResults, maxDepth := CountCells(row, 1);
    DepthBound(row);
    var buffer, keyPath := new Cell[noResults], new int[maxDepth];
    var last, passed := SerializeCells(row, buffer, 0, keyPath, 1, schemaKeys);
    if !passed {
      return None;
    }
    assert last == noResults;
    assert buffer[..] == buffer[0..last];
    cells := Some(buffer[..]);
  }

  /** get_range_read_response_packet: the path buffer is as long as the deepest row needs. */
  method RangeResponse(rows: seq<Row>, schemaKeys: nat) returns (cells: Option<seq<Cell>>)
    requires ShapedAll(rows)
    ensures cells.Some? <==> forall i :: 0 <= i < |rows| ==> Sends(rows[i], 1, schemaKeys)
    ensures cells.Some? ==> WellFormedAll(rows) && cells.value == SerializeAll(rows, [])
  {
    if rows == [] {
      return Some([]);
    }
    var maxRangeDepth, noCells := 0, 0;
    for i := 0 to |rows|
      invariant noCells == LeavesAll(rows[..i])
      invariant forall j :: 0 <= j < i ==> Fits(rows[j], maxRangeDepth)
    {
      var n, maxDepth := CountCells(rows[i], 1);
      assert rows[..i + 1][..i] == rows[..i];
      noCells := noCells + n;
      DepthBound(rows[i]);
      if maxDepth > maxRangeDepth {
        forall j | 0 <= j < i ensures Fits(rows[j], maxDepth) { FitsMore(rows[j], maxRangeDepth, maxDepth); }
        maxRangeDepth := maxDepth;
      } else {
        FitsMore(rows[i], maxDepth, maxRangeDepth);
      }
    }
    assert rows[..|rows|] == rows;
    var buffer, keyPath := new Cell[noCells], new int[maxRangeDepth];
    var last, passed := SerializeRows(rows, buffer, 0, keyPath, 1, schemaKeys);
    if !passed {
      return None;
    }
    assert last == noCells;
    assert buffer[..] == buffer[0..last];
    cells := Some(buffer[..]);
  }

  // ---- When reads are answered ----

  /** Every leaf is h levels down, as in a table whose rows all have the schema's number of keys. */
  predicate Uniform(row: Row, h: int)
    decreases row
  {
    match row
    case Leaf(_, _) => h == 1
    case Inner(_, children) => forall i :: 0 <= i < |children| ==> Uniform(children[i], h - 1)
  }

  lemma {:induction false} SendsIff(row: Row, h: int, depth: int, schemaKeys: int)
    requires Shaped(row) && Uniform(row, h)
    ensures Sends(row, depth, schemaKeys) <==> HasColumns(row) && depth + h - 1 >= schemaKeys
    decreases row
  {
    if row.Inner? {
      forall i | 0 <= i < |row.children|
        ensures Sends(row.children[i], depth + 1, schemaKeys) <==>
                HasColumns(row.children[i]) && depth + h - 1 >= schemaKeys
      {
        SendsIff(row.children[i], h - 1, depth + 1, schemaKeys);
      }
      assert Sends(row, depth, schemaKeys) ==> Sends(row.children[0], depth + 1, schemaKeys);
    }
  }

  lemma {:induction false} UniformLeaf(row: Row, h: int)
    requires Shaped(row) && Uniform(row, h)
    ensures h >= 1 && (row.Leaf? <==> h == 1)
    decreases row
  {
    if row.Inner? {
      UniformLeaf(row.children[0], h - 1);
    }
  }

  /** The depth check compares depths below the cell that was asked for with the keys of the whole
      schema, all d + 1 of which every row has. A single read addressed by m of them is answered exactly
      when no leaf is without columns and either a whole row is asked for, or a single leaf with as many
      columns as the schema has in all. */
  lemma ReadAnsweredIff(row: Row, d: nat, m: nat, minNoCols: nat)
    requires Shaped(row) && 1 <= m <= d + 1 && Uniform(row, d + 2 - m)
    ensures Answered(row, d + 1, minNoCols) <==>
              HasColumns(row) && if row.Leaf? then |row.columns.words| >= minNoCols else m == 1
    ensures row.Leaf? <==> m == d + 1
  {
    SendsIff(row, d + 2 - m, 1, d + 1);
    UniformLeaf(row, d + 2 - m);
  }

  /** Ranges go through the depth check even when they are of leaves: they are answered exactly when no
      leaf is without columns and whole rows are asked for. */
  lemma RangeAnsweredIff(rows: seq<Row>, d: nat, m: nat)
    requires ShapedAll(rows) && rows != [] && 1 <= m <= d + 1
    requires forall i :: 0 <= i < |rows| ==> Uniform(rows[i], d + 2 - m)
    ensures (forall i :: 0 <= i < |rows| ==> Sends(rows[i], 1, d + 1))
            <==> m == 1 && forall i :: 0 <= i < |rows| ==> HasColumns(rows[i])
  {
    forall i | 0 <= i < |rows|
      ensures Sends(rows[i], 1, d + 1) <==> HasColumns(rows[i]) && m == 1
    {
      SendsIff(rows[i], d + 2 - m, 1, d + 1);
    }
    assert Uniform(rows[0], d + 2 - m);
  }

  /** In a table with three keys, reading by two of them a cell that holds one leaf stops the server,
      and so does a range of leaves. */
  lemma PartialReadStops()
    ensures var row := Inner(7, [Leaf(8, Columns([Val(1)], 0))]);
            Shaped(row) && HasColumns(row) && !Answered(row, 3, 0) && !Sends(row.children[0], 1, 3)
  {
    var leaf := Leaf(8, Columns([Val(1)], 0));
    var row := Inner(7, [leaf]);
    assert row.children[0] == leaf && !Sends(leaf, 2, 3);
  }

  /** Reading by its full path a row with total columns, d + 1 of them keys, is answered only if it has
      more than the schema by as many as there are keys; a row with just the schema's columns is not. */
  lemma FullPathReadIff(key: int, columns: Columns, total: nat, d: nat, minNoCols: nat)
    requires total > d + 1 && |columns.words| == total - d - 1
    ensures Answered(Leaf(key, columns), d + 1, minNoCols) <==> total >= minNoCols + d + 1
  {
  }

  /** A row that was inserted once without clustering keys cannot be read. */
  lemma ColumnlessReadStops(key: int, schemaKeys: int, minNoCols: int)
    ensures Shaped(Leaf(key, NO_COLUMNS))
    ensures !Answered(Leaf(key, NO_COLUMNS), schemaKeys, minNoCols) && !Sends(Leaf(key, NO_COLUMNS), 1, schemaKeys)
  {
  }
}
