/** What a skiplist means: a sequence of entries, strictly increasing under the comparator.
    Put, Get, Remove and Rank are the reference against which class Skiplist is proved, and
    the form in which the rest of the model uses skiplists. */
module SortedSeq {
  import opened Order

  datatype Option<+T> = None | Some(value: T)
  datatype Entry<+K, +V> = Entry(key: K, value: V)

  ghost predicate Sorted<K, V>(cmp: (K, K) -> int, s: seq<Entry<K, V>>) {
    forall i, j :: 0 <= i < j < |s| ==> cmp(s[i].key, s[j].key) < 0
  }

  ghost predicate Within<K, V>(s: seq<Entry<K, V>>, dom: iset<K>) {
    forall i :: 0 <= i < |s| ==> s[i].key in dom
  }

  ghost predicate Ordered<K(!new), V>(cmp: (K, K) -> int, dom: iset<K>, s: seq<Entry<K, V>>) {
    TotalPreorder(cmp, dom) && Sorted(cmp, s) && Within(s, dom)
  }

  /** Index of the first entry, from index i on, that is not below k. */
  function RankFrom<K, V>(cmp: (K, K) -> int, s: seq<Entry<K, V>>, k: K, i: nat): (r: nat)
    requires i <= |s|
    ensures i <= r <= |s|
    ensures forall j :: i <= j < r ==> cmp(s[j].key, k) < 0
    ensures r < |s| ==> cmp(s[r].key, k) >= 0
    decreases |s| - i
  {
    if i == |s| || cmp(s[i].key, k) >= 0 then i else RankFrom(cmp, s, k, i + 1)
  }

  function Rank<K, V>(cmp: (K, K) -> int, s: seq<Entry<K, V>>, k: K): (r: nat)
    ensures r <= |s|
    ensures forall i :: 0 <= i < r ==> cmp(s[i].key, k) < 0
    ensures r < |s| ==> cmp(s[r].key, k) >= 0
  {
    RankFrom(cmp, s, k, 0)
  }

  predicate Has<K, V>(cmp: (K, K) -> int, s: seq<Entry<K, V>>, k: K) {
    var r := Rank(cmp, s, k);
    r < |s| && cmp(k, s[r].key) == 0
  }

  function Get<K, V>(cmp: (K, K) -> int, s: seq<Entry<K, V>>, k: K): Option<V> {
    if Has(cmp, s, k) then Some(s[Rank(cmp, s, k)].value) else None
  }

  /** The stored key is kept when an equal one is written over it. */
  function Put<K, V>(cmp: (K, K) -> int, s: seq<Entry<K, V>>, k: K, v: V): seq<Entry<K, V>> {
    var r := Rank(cmp, s, k);
    if Has(cmp, s, k) then s[r := Entry(s[r].key, v)] else s[..r] + [Entry(k, v)] + s[r..]
  }

  function Remove<K, V>(cmp: (K, K) -> int, s: seq<Entry<K, V>>, k: K): seq<Entry<K, V>> {
    var r := Rank(cmp, s, k);
    if Has(cmp, s, k) then s[..r] + s[r + 1..] else s
  }

  /** What a walk along the list sees, in order. */
  function Values<K, V>(s: seq<Entry<K, V>>): (r: seq<V>)
    ensures |r| == |s|
    ensures forall i :: 0 <= i < |s| ==> r[i] == s[i].value
  {
    seq(|s|, i requires 0 <= i < |s| => s[i].value)
  }

  // ---- Rank splits the sequence ----

  lemma RankSplits<K(!new), V>(cmp: (K, K) -> int, dom: iset<K>, s: seq<Entry<K, V>>, k: K)
    requires Ordered(cmp, dom, s) && k in dom
    ensures forall i :: 0 <= i < |s| ==> (cmp(s[i].key, k) < 0 <==> i < Rank(cmp, s, k))
    ensures forall i :: Rank(cmp, s, k) < i < |s| ==> cmp(s[i].key, k) > 0
  {
    var r := Rank(cmp, s, k);
    forall i | r < i < |s|
      ensures cmp(s[i].key, k) > 0
    {
      StrictlyBelow(cmp, dom, k, s[r].key, s[i].key);
    }
  }

  lemma RankUnique<K, V>(cmp: (K, K) -> int, s: seq<Entry<K, V>>, k: K, r: nat)
    requires r <= |s|
    requires forall i :: 0 <= i < r ==> cmp(s[i].key, k) < 0
    requires r < |s| ==> cmp(s[r].key, k) >= 0
    ensures Rank(cmp, s, k) == r
  {
  }

  /** An entry comparing equal to k sits at Rank, so Get finds it. */
  lemma GetFinds<K(!new), V>(cmp: (K, K) -> int, dom: iset<K>, s: seq<Entry<K, V>>, k: K, i: nat)
    requires Ordered(cmp, dom, s) && k in dom
    requires i < |s| && cmp(s[i].key, k) == 0
    ensures Rank(cmp, s, k) == i && Has(cmp, s, k) && Get(cmp, s, k) == Some(s[i].value)
  {
    RankSplits(cmp, dom, s, k);
    assert cmp(k, s[i].key) == 0 by {
      assert cmp(s[i].key, k) < 0 <==> cmp(k, s[i].key) > 0;
      assert cmp(k, s[i].key) < 0 <==> cmp(s[i].key, k) > 0;
    }
  }

  /** Conversely, Get answers only with a stored equal key. */
  lemma HasIffStored<K(!new), V>(cmp: (K, K) -> int, dom: iset<K>, s: seq<Entry<K, V>>, k: K)
    requires Ordered(cmp, dom, s) && k in dom
    ensures Has(cmp, s, k) <==> exists i :: 0 <= i < |s| && cmp(s[i].key, k) == 0
    ensures Has(cmp, s, k) ==> cmp(s[Rank(cmp, s, k)].key, k) == 0
  {
    if i :| 0 <= i < |s| && cmp(s[i].key, k) == 0 {
      GetFinds(cmp, dom, s, k, i);
    }
    var r := Rank(cmp, s, k);
    if Has(cmp, s, k) {
      assert cmp(k, s[r].key) < 0 <==> cmp(s[r].key, k) > 0;
    }
  }

  // ---- The map laws ----

  lemma PutKeepsOrder<K(!new), V>(cmp: (K, K) -> int, dom: iset<K>, s: seq<Entry<K, V>>, k: K, v: V)
    requires Ordered(cmp, dom, s) && k in dom
    ensures Ordered(cmp, dom, Put(cmp, s, k, v))
    ensures |Put(cmp, s, k, v)| == |s| + (if Has(cmp, s, k) then 0 else 1)
  {
    var r := Rank(cmp, s, k);
    if Has(cmp, s, k) {
      UpdateKeepsOrder(cmp, dom, s, r, v);
    } else {
      RankSplits(cmp, dom, s, k);
      assert forall i :: r <= i < |s| ==> cmp(k, s[i].key) < 0;
      InsertKeepsOrder(cmp, dom, s, r, Entry(k, v));
    }
  }

  /** What is stored keeps its keys, also when its value is replaced. */
  lemma PutKeepsKeys<K(!new), V>(cmp: (K, K) -> int, s: seq<Entry<K, V>>, k: K, v: V, i: nat)
    requires i < |s|
    ensures exists j :: 0 <= j < |Put(cmp, s, k, v)| && Put(cmp, s, k, v)[j].key == s[i].key
    ensures Has(cmp, s, k) || Entry(k, v) in Put(cmp, s, k, v)
  {
    var s', r := Put(cmp, s, k, v), Rank(cmp, s, k);
    var j := if Has(cmp, s, k) || i < r then i else i + 1;
    assert s'[j].key == s[i].key;
    assert !Has(cmp, s, k) ==> s'[r] == Entry(k, v);
  }

  lemma UpdateKeepsOrder<K(!new), V>(cmp: (K, K) -> int, dom: iset<K>, s: seq<Entry<K, V>>, r: nat, v: V)
    requires Ordered(cmp, dom, s) && r < |s|
    ensures Ordered(cmp, dom, s[r := Entry(s[r].key, v)])
  {
    assert forall i :: 0 <= i < |s| ==> s[r := Entry(s[r].key, v)][i].key == s[i].key;
  }

  lemma InsertKeepsOrder<K(!new), V>(cmp: (K, K) -> int, dom: iset<K>, s: seq<Entry<K, V>>, r: nat, e: Entry<K, V>)
    requires Ordered(cmp, dom, s) && r <= |s| && e.key in dom
    requires forall i :: 0 <= i < r ==> cmp(s[i].key, e.key) < 0
    requires forall i :: r <= i < |s| ==> cmp(e.key, s[i].key) < 0
    ensures Ordered(cmp, dom, s[..r] + [e] + s[r..])
  {
  }

  /** Get depends only on the stored entries that compare equal to the key. */
  lemma SameAnswer<K(!new), V>(cmp: (K, K) -> int, dom: iset<K>, s: seq<Entry<K, V>>, t: seq<Entry<K, V>>, q: K)
    requires Ordered(cmp, dom, s) && Ordered(cmp, dom, t) && q in dom
    requires forall e :: e in s && cmp(e.key, q) == 0 ==> e in t
    requires forall e :: e in t && cmp(e.key, q) == 0 ==> e in s
    ensures Get(cmp, s, q) == Get(cmp, t, q)
  {
    HasIffStored(cmp, dom, s, q);
    HasIffStored(cmp, dom, t, q);
    if Has(cmp, s, q) {
      var e := s[Rank(cmp, s, q)];
      assert e in s;
      var j :| 0 <= j < |t| && t[j] == e;
      GetFinds(cmp, dom, t, q, j);
    }
    if Has(cmp, t, q) {
      var e := t[Rank(cmp, t, q)];
      assert e in t;
      var i :| 0 <= i < |s| && s[i] == e;
      GetFinds(cmp, dom, s, q, i);
    }
  }

  lemma GetAfterPut<K(!new), V>(cmp: (K, K) -> int, dom: iset<K>, s: seq<Entry<K, V>>, k: K, v: V, q: K)
    requires Ordered(cmp, dom, s) && k in dom && q in dom
    ensures Get(cmp, Put(cmp, s, k, v), q) == if cmp(k, q) == 0 then Some(v) else Get(cmp, s, q)
  {
    var s', r := Put(cmp, s, k, v), Rank(cmp, s, k);
    PutKeepsOrder(cmp, dom, s, k, v);
    StoredKey(cmp, dom, s, k, v, q);
    if cmp(k, q) == 0 {
      GetFinds(cmp, dom, s', q, r);
    } else {
      forall e: Entry<K, V> | cmp(e.key, q) == 0
        ensures e in s <==> e in s'
      {
        PutMember(cmp, s, k, v, e);
      }
      SameAnswer(cmp, dom, s, s', q);
    }
  }

  /** After a Put the entry at Rank holds v under a key that acts like k. */
  lemma StoredKey<K(!new), V>(cmp: (K, K) -> int, dom: iset<K>, s: seq<Entry<K, V>>, k: K, v: V, q: K)
    requires Ordered(cmp, dom, s) && k in dom && q in dom
    ensures var s', r := Put(cmp, s, k, v), Rank(cmp, s, k);
            r < |s'| && s'[r].value == v && (cmp(s'[r].key, q) == 0 <==> cmp(k, q) == 0)
    ensures Has(cmp, s, k) ==> (cmp(s[Rank(cmp, s, k)].key, q) == 0 <==> cmp(k, q) == 0)
  {
    if Has(cmp, s, k) {
      HasIffStored(cmp, dom, s, k);
      EqualActsAlike(cmp, dom, s[Rank(cmp, s, k)].key, k, q);
    }
  }

  /** Put leaves all entries but the one at Rank in place. */
  lemma PutMember<K(!new), V>(cmp: (K, K) -> int, s: seq<Entry<K, V>>, k: K, v: V, e: Entry<K, V>)
    requires var r := Rank(cmp, s, k);
             e != Put(cmp, s, k, v)[r] && (Has(cmp, s, k) ==> e != s[r])
    ensures e in s <==> e in Put(cmp, s, k, v)
  {
    var r := Rank(cmp, s, k);
    if Has(cmp, s, k) {
      UpdateMember(s, r, Entry(s[r].key, v), e);
    } else {
      InsertMember(s, r, Entry(k, v), e);
    }
  }

  lemma UpdateMember<T>(s: seq<T>, r: nat, x: T, e: T)
    requires r < |s| && e != x && e != s[r]
    ensures e in s <==> e in s[r := x]
  {
    if e in s {
      var i :| 0 <= i < |s| && s[i] == e;
      assert s[r := x][i] == e;
    }
  }

  lemma InsertMember<T>(s: seq<T>, r: nat, x: T, e: T)
    requires r <= |s| && e != x
    ensures e in s <==> e in s[..r] + [x] + s[r..]
  {
    assert s == s[..r] + s[r..];
  }

  lemma RemoveKeepsOrder<K(!new), V>(cmp: (K, K) -> int, dom: iset<K>, s: seq<Entry<K, V>>, k: K)
    requires Ordered(cmp, dom, s)
    ensures Ordered(cmp, dom, Remove(cmp, s, k))
    ensures |Remove(cmp, s, k)| == |s| - (if Has(cmp, s, k) then 1 else 0)
  {
  }

  lemma GetAfterRemove<K(!new), V>(cmp: (K, K) -> int, dom: iset<K>, s: seq<Entry<K, V>>, k: K, q: K)
    requires Ordered(cmp, dom, s) && k in dom && q in dom
    ensures Get(cmp, Remove(cmp, s, k), q) == if cmp(k, q) == 0 then None else Get(cmp, s, q)
  {
    var s', r := Remove(cmp, s, k), Rank(cmp, s, k);
    RemoveKeepsOrder(cmp, dom, s, k);
    HasIffStored(cmp, dom, s, k);
    if cmp(k, q) == 0 {
      GoneAfterRemove(cmp, dom, s, k, q);
    } else if Has(cmp, s, k) {
      EqualActsAlike(cmp, dom, s[r].key, k, q);
      assert s == s[..r] + [s[r]] + s[r + 1..];
      SameAnswer(cmp, dom, s, s', q);
    }
  }

  lemma GoneAfterRemove<K(!new), V>(cmp: (K, K) -> int, dom: iset<K>, s: seq<Entry<K, V>>, k: K, q: K)
    requires Ordered(cmp, dom, s) && k in dom && q in dom && cmp(k, q) == 0
    ensures !Has(cmp, Remove(cmp, s, k), q)
  {
    var s', r := Remove(cmp, s, k), Rank(cmp, s, k);
    RemoveKeepsOrder(cmp, dom, s, k);
    RankSplits(cmp, dom, s, k);
    HasIffStored(cmp, dom, s, k);
    HasIffStored(cmp, dom, s', q);
    forall i | 0 <= i < |s'|
      ensures cmp(s'[i].key, q) != 0
    {
      var e := s[if Has(cmp, s, k) && i >= r then i + 1 else i];
      assert s'[i] == e && cmp(e.key, k) != 0;
      EqualActsAlike(cmp, dom, k, q, e.key);
    }
  }

  ghost predicate Agree<K(!new), V>(cmp: (K, K) -> int, dom: iset<K>, s: seq<Entry<K, V>>, t: seq<Entry<K, V>>) {
    && Ordered(cmp, dom, s) && Ordered(cmp, dom, t)
    && (forall a, b :: a in dom && b in dom && cmp(a, b) == 0 ==> a == b)
    && (forall k :: k in dom ==> Get(cmp, s, k) == Get(cmp, t, k))
  }

  /** A sorted sequence whose keys the comparator tells apart is determined by its answers to Get. */
  lemma {:induction false} GetDetermines<K(!new), V>(cmp: (K, K) -> int, dom: iset<K>, s: seq<Entry<K, V>>,
                                                     t: seq<Entry<K, V>>)
    requires Agree(cmp, dom, s, t)
    ensures s == t
  {
    if s == [] {
      if t != [] {
        GetFinds(cmp, dom, t, t[0].key, 0);
      }
    } else {
      SameFirst(cmp, dom, s, t);
      TailsAgree(cmp, dom, s, t);
      GetDetermines(cmp, dom, s[1..], t[1..]);
      assert s == [s[0]] + s[1..] && t == [t[0]] + t[1..];
    }
  }

  lemma SameFirst<K(!new), V>(cmp: (K, K) -> int, dom: iset<K>, s: seq<Entry<K, V>>, t: seq<Entry<K, V>>)
    requires Agree(cmp, dom, s, t) && s != []
    ensures t != [] && s[0] == t[0]
  {
    var a := s[0].key;
    GetFinds(cmp, dom, s, a, 0);
    assert Get(cmp, t, a) == Some(s[0].value);
    HasIffStored(cmp, dom, t, a);
    var i := Rank(cmp, t, a);
    assert t[i].key == a;
    var b := t[0].key;
    GetFinds(cmp, dom, t, b, 0);
    assert Get(cmp, s, b) == Some(t[0].value);
    HasIffStored(cmp, dom, s, b);
    assert s[Rank(cmp, s, b)].key == b;
  }

  lemma TailsAgree<K(!new), V>(cmp: (K, K) -> int, dom: iset<K>, s: seq<Entry<K, V>>, t: seq<Entry<K, V>>)
    requires Agree(cmp, dom, s, t) && s != [] && t != [] && s[0] == t[0]
    ensures Agree(cmp, dom, s[1..], t[1..])
  {
    TailGet(cmp, dom, s, s[0].key);
    TailGet(cmp, dom, t, t[0].key);
    forall k | k in dom
      ensures Get(cmp, s[1..], k) == Get(cmp, t[1..], k)
    {
      TailGet(cmp, dom, s, k);
      TailGet(cmp, dom, t, k);
    }
  }

  lemma TailGet<K(!new), V>(cmp: (K, K) -> int, dom: iset<K>, s: seq<Entry<K, V>>, k: K)
    requires s != [] && Ordered(cmp, dom, s) && k in dom
    ensures Ordered(cmp, dom, s[1..])
    ensures Get(cmp, s[1..], k) == if cmp(s[0].key, k) == 0 then None else Get(cmp, s, k)
  {
    var s' := s[1..];
    HasIffStored(cmp, dom, s, k);
    HasIffStored(cmp, dom, s', k);
    if Has(cmp, s', k) {
      GetFinds(cmp, dom, s, k, Rank(cmp, s', k) + 1);
    }
    if Has(cmp, s, k) && cmp(s[0].key, k) != 0 {
      GetFinds(cmp, dom, s', k, Rank(cmp, s, k) - 1);
    }
  }
}
