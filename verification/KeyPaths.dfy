/** Key paths: the primary key of a row followed by clustering keys. */
module KeyPaths {
  type Path = seq<int>

  predicate InRow(p: Path, key: int) {
    p != [] && p[0] == key
  }

  /** A flat table without the paths of one row. */
  function WithoutRow<T>(m: map<Path, T>, key: int): map<Path, T> {
    map p | p in m && !InRow(p, key) :: m[p]
  }
}
