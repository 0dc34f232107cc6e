/** The rows of a backend table are the contents of a tree of cells: where all rows have the schema's
    number of keys, persisting a write does to the flat rows what the tree operations do. */
module FlatTables {
  import opened Order
  import opened KeyPaths
  import opened TxnWrites
  import opened Cells
  import opened Tables
  import Database

  /** Columns without a blob, as numbers. */
  predicate Plain(c: Columns) {
    forall i :: 0 <= i < |c.words| ==> c.words[i].Val?
  }

  function Numbers(c: Columns): seq<int>
    requires Plain(c)
  {
    seq(|c.words|, i requires 0 <= i < |c.words| => c.words[i].v)
  }

  ghost predicate AllPlain(contents: map<Path, Columns>) {
    forall p :: p in contents ==> Plain(contents[p])
  }

  /** What a tree stores, as flat rows. */
  ghost function Flat(contents: map<Path, Columns>): map<Path, seq<int>>
    requires AllPlain(contents)
  {
    map p | p in contents :: Numbers(contents[p])
  }

  function ToWords(vs: seq<int>): (r: seq<Word>)
    ensures |r| == |vs| && forall i :: 0 <= i < |vs| ==> r[i] == Val(vs[i])
  {
    seq(|vs|, i requires 0 <= i < |vs| => Val(vs[i]))
  }

  /** The columns of an update, as table_insert stores them. */
  function ColumnsOf(w: Write): (c: Columns)
    ensures Plain(c) && Numbers(c) == Database.Columns(w)
  {
    Columns(ToWords(Database.Columns(w)), 0)
  }

  /** An update with the schema's number of clustering keys. */
  predicate UpdatesRow(w: Write, schemaKeys: nat) {
    w.queryType.Update? && w.noPrimaryKeys == 1 && w.noClusteringKeys == schemaKeys && schemaKeys + 1 < |w.columnValues|
  }

  lemma UpdatePath(w: Write, schemaKeys: nat)
    requires UpdatesRow(w, schemaKeys)
    ensures KeysFirst(ToWords(w.columnValues), schemaKeys)
    ensures InsertPath(schemaKeys, ToWords(w.columnValues), schemaKeys) == KeyPath(w)
    ensures Columns(ToWords(w.columnValues)[schemaKeys + 1..], 0) == ColumnsOf(w)
  {
    assert ToWords(w.columnValues)[schemaKeys + 1..] == ToWords(Database.Columns(w));
  }

  /** Persisting an update is inserting its row into the tree. */
  lemma PersistIsInsert(db: Database.Db, w: Write, contents: map<Path, Columns>, schemaKeys: nat)
    requires UpdatesRow(w, schemaKeys) && schemaKeys >= 1 && w.tableKey in db
    requires AllPlain(contents) && AllOfLength(contents, schemaKeys + 1) && Flat(contents) == db[w.tableKey].rows
    ensures Compatible(contents, KeyPath(w))
    ensures var contents' := Inserted(contents, KeyPath(w), ColumnsOf(w));
            && AllPlain(contents') && AllOfLength(contents', schemaKeys + 1)
            && Flat(contents') == Database.PersistWrite(db, w).db[w.tableKey].rows
  {
    var contents' := Inserted(contents, KeyPath(w), ColumnsOf(w));
    assert contents' == contents[KeyPath(w) := ColumnsOf(w)];
    assert Flat(contents') == Flat(contents)[KeyPath(w) := Database.Columns(w)];
  }

  /** Persisting a row delete is deleting the row of the tree, and stops the server in the same case. */
  lemma PersistIsDeleteRow(db: Database.Db, w: Write, contents: map<Path, Columns>)
    requires w.queryType.Delete? && w.columnValues != [] && w.tableKey in db
    requires AllPlain(contents) && Flat(contents) == db[w.tableKey].rows
    ensures Database.Safe(db, w) <==> !(contents == map[] && LooksLikeHeader(w.columnValues[0]))
    ensures var contents' := WithoutRow(contents, w.columnValues[0]);
            AllPlain(contents') &&
              (Database.Safe(db, w) ==> Flat(contents') == Database.PersistWrite(db, w).db[w.tableKey].rows)
  {
    assert db[w.tableKey].rows == map[] <==> contents == map[] by {
      if p :| p in contents {
        assert p in Flat(contents);
      }
    }
    assert Flat(WithoutRow(contents, w.columnValues[0])) == WithoutRow(Flat(contents), w.columnValues[0]);
  }
}
