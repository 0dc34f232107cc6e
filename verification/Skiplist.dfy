/** The skiplist behind every table, queue, write set and ring: nodes with an array of forward
    pointers, one per level. The ghost sequence `nodes` lists the header and then the entries in
    key order; level i of the structure is exactly the sub-chain of nodes taller than i. */
module Skiplists {
  import opened Order
  import opened SortedSeq

  const MAX_LEVEL: nat := 6

  class Node<K, V> {
    const key: K
    var value: V
    const forward: array<Node?<K, V>>

    constructor (key: K, value: V, height: nat)
      ensures this.key == key && this.value == value
      ensures fresh(forward) && forward.Length == height
      ensures forall i :: 0 <= i < height ==> forward[i] == null
    {
      this.key := key;
      this.value := value;
      this.forward := new Node?<K, V>[height](_ => null);
    }
  }

  // ---- Shape of a node sequence ----

  /** Index of the first node at or after `from` that takes part in level lvl; |ns| if there is none. */
  ghost function NextAt<K, V>(ns: seq<Node<K, V>>, from: nat, lvl: nat): (m: nat)
    requires from <= |ns|
    ensures from <= m <= |ns|
    ensures m < |ns| ==> ns[m].forward.Length > lvl
    ensures forall k :: from <= k < m ==> ns[k].forward.Length <= lvl
    decreases |ns| - from
  {
    if from == |ns| || ns[from].forward.Length > lvl then from else NextAt(ns, from + 1, lvl)
  }

  ghost function At<K, V>(ns: seq<Node<K, V>>, m: nat): Node?<K, V>
    requires m <= |ns|
  {
    if m == |ns| then null else ns[m]
  }

  /** Where forward[lvl] of node j has to point. */
  ghost function Target<K, V>(ns: seq<Node<K, V>>, j: nat, lvl: nat): Node?<K, V>
    requires j < |ns|
  {
    At(ns, NextAt(ns, j + 1, lvl))
  }

  ghost predicate Shaped<K, V>(ns: seq<Node<K, V>>) {
    && |ns| >= 1
    && ns[0].forward.Length == MAX_LEVEL
    && (forall j :: 0 <= j < |ns| ==> 1 <= ns[j].forward.Length <= MAX_LEVEL)
  }

  ghost predicate NoTaller<K, V>(ns: seq<Node<K, V>>, bound: nat) {
    forall j :: 1 <= j < |ns| ==> ns[j].forward.Length <= bound
  }

  ghost predicate Separate<K, V>(ns: seq<Node<K, V>>) {
    forall i, j :: 0 <= i < j < |ns| ==> ns[i] != ns[j] && ns[i].forward != ns[j].forward
  }

  ghost function Arrays<K, V>(ns: seq<Node<K, V>>): set<array<Node?<K, V>>> {
    set j | 0 <= j < |ns| :: ns[j].forward
  }

  /** Every forward pointer leads to the next node of its level. */
  ghost predicate Linked<K, V>(ns: seq<Node<K, V>>)
    reads Arrays(ns)
  {
    forall k, l :: 0 <= k < |ns| && 0 <= l < ns[k].forward.Length ==> ns[k].forward[l] == Target(ns, k, l)
  }

  lemma NextAtIs<K, V>(ns: seq<Node<K, V>>, from: nat, lvl: nat, m: nat)
    requires from <= m <= |ns|
    requires m < |ns| ==> ns[m].forward.Length > lvl
    requires forall k :: from <= k < m ==> ns[k].forward.Length <= lvl
    ensures NextAt(ns, from, lvl) == m
  {
    var m' := NextAt(ns, from, lvl);
    assert !(m' < m) && !(m < m');
  }

  /** ns' is ns with n put in at index q. */
  ghost predicate Spliced<K, V>(ns: seq<Node<K, V>>, q: nat, n: Node<K, V>, ns': seq<Node<K, V>>) {
    && q <= |ns| && |ns'| == |ns| + 1
    && ns'[q] == n
    && (forall j :: 0 <= j < q ==> ns'[j] == ns[j])
    && (forall j :: q < j < |ns'| ==> ns'[j] == ns[j - 1])
  }

  ghost function SpliceIn<K, V>(ns: seq<Node<K, V>>, q: nat, n: Node<K, V>): (ns': seq<Node<K, V>>)
    requires q <= |ns|
    ensures Spliced(ns, q, n, ns')
  {
    ns[..q] + [n] + ns[q..]
  }

  ghost function SpliceOut<K, V>(ns: seq<Node<K, V>>, q: nat): (rest: seq<Node<K, V>>)
    requires q < |ns|
    ensures Spliced(rest, q, ns[q], ns)
  {
    ns[..q] + ns[q + 1..]
  }

  /** Index before the splice of the node that is at index k after it. */
  ghost function Before(q: nat, k: nat): nat
    requires k != q
  {
    if k < q then k else k - 1
  }

  /** Inserting n at index q redirects, on each level of n, just the pointer that spanned q. */
  lemma TargetBefore<K, V>(ns: seq<Node<K, V>>, q: nat, n: Node<K, V>, ns': seq<Node<K, V>>, lvl: nat, j: nat)
    requires Spliced(ns, q, n, ns') && j < q
    ensures Target(ns', j, lvl) == if lvl < n.forward.Length && NextAt(ns, j + 1, lvl) >= q then n
            else Target(ns, j, lvl)
  {
    var m := NextAt(ns, j + 1, lvl);
    NextAtIs(ns', j + 1, lvl, if m < q then m else if lvl < n.forward.Length then q else m + 1);
  }

  lemma TargetFrom<K, V>(ns: seq<Node<K, V>>, q: nat, n: Node<K, V>, ns': seq<Node<K, V>>, lvl: nat, j: nat)
    requires Spliced(ns, q, n, ns') && q <= j < |ns'|
    ensures Target(ns', j, lvl) == At(ns, NextAt(ns, j, lvl))
  {
    NextAtIs(ns', j + 1, lvl, NextAt(ns, j, lvl) + 1);
  }

  /** u, at index j, is the last node up to index p that takes part in level lvl. */
  ghost predicate Precedes<K, V>(ns: seq<Node<K, V>>, p: nat, lvl: nat, j: nat, u: Node<K, V>) {
    j <= p < |ns| && ns[j] == u && u.forward.Length > lvl && NextAt(ns, j + 1, lvl) > p
  }

  lemma TargetAfterSplice<K, V>(ns: seq<Node<K, V>>, q: nat, n: Node<K, V>, ns': seq<Node<K, V>>,
                                i: nat, j: nat, u: Node<K, V>, k: nat)
    requires q > 0 && Spliced(ns, q, n, ns') && Precedes(ns, q - 1, i, j, u) && i < n.forward.Length
    requires k < |ns'| && ns'[k].forward.Length > i
    ensures Target(ns', k, i) ==
            if k == j then n else if k == q then Target(ns, j, i) else Target(ns, Before(q, k), i)
  {
    if k < q {
      TargetBefore(ns, q, n, ns', i, k);
      assert NextAt(ns, k + 1, i) >= q <==> k == j;
    } else {
      TargetFrom(ns, q, n, ns', i, k);
      if k == q {
        NextAtIs(ns, q, i, NextAt(ns, j + 1, i));
      }
    }
  }

  /** Chains n in after u on level i. */
  method LinkAfter<K, V>(n: Node<K, V>, u: Node<K, V>, i: nat,
                         ghost ns: seq<Node<K, V>>, ghost q: nat, ghost j: nat, ghost ns': seq<Node<K, V>>)
    requires q > 0 && Spliced(ns, q, n, ns') && Separate(ns')
    requires Precedes(ns, q - 1, i, j, u) && i < n.forward.Length
    requires forall k :: 0 <= k < |ns'| && k != q && i < ns'[k].forward.Length ==>
             ns'[k].forward[i] == Target(ns, Before(q, k), i)
    modifies n.forward, u.forward
    ensures forall k :: 0 <= k < |ns'| && i < ns'[k].forward.Length ==> ns'[k].forward[i] == Target(ns', k, i)
    ensures forall k, l :: 0 <= k < |ns'| && 0 <= l < ns'[k].forward.Length && l != i ==>
              ns'[k].forward[l] == old(ns'[k].forward[l])
  {
    assert ns'[j] == u && ns'[q] == n;
    n.forward[i] := u.forward[i];
    u.forward[i] := n;
    forall k | 0 <= k < |ns'| && ns'[k].forward.Length > i
      ensures ns'[k].forward[i] == Target(ns', k, i)
    {
      TargetAfterSplice(ns, q, n, ns', i, j, u, k);
    }
  }

  /** The entries held by the nodes after the header. */
  ghost predicate Holds<K, V>(ns: seq<Node<K, V>>, s: seq<Entry<K, V>>)
    reads ns
  {
    |ns| == |s| + 1 && forall i :: 0 <= i < |s| ==> s[i] == Entry(ns[i + 1].key, ns[i + 1].value)
  }

  /** Chains n in on all of its levels. */
  method LinkAll<K, V>(n: Node<K, V>, update: seq<Node<K, V>>,
                       ghost ns: seq<Node<K, V>>, ghost q: nat, ghost us: seq<nat>,
                       ghost ns': seq<Node<K, V>>, ghost s': seq<Entry<K, V>>)
    requires q > 0 && Spliced(ns, q, n, ns') && Separate(ns') && n.forward.Length <= MAX_LEVEL == |update| == |us|
    requires forall l :: 0 <= l < MAX_LEVEL ==> Precedes(ns, q - 1, l, us[l], update[l])
    requires Linked(ns) && Holds(ns', s')
    modifies Arrays(ns')
    ensures Linked(ns') && Holds(ns', s')
  {
    var i := 0;
    while i < n.forward.Length
      invariant 0 <= i <= n.forward.Length
      invariant forall k, l :: 0 <= k < |ns'| && 0 <= l < ns'[k].forward.Length && l < i ==>
                  ns'[k].forward[l] == Target(ns', k, l)
      invariant forall k, l :: 0 <= k < |ns'| && k != q && i <= l < ns'[k].forward.Length ==>
                  ns'[k].forward[l] == Target(ns, Before(q, k), l)
    {
      assert ns'[us[i]] == update[i] && ns'[q] == n;
      LinkAfter(n, update[i], i, ns, q, us[i], ns');
      i := i + 1;
    }
    forall k, l | 0 <= k < |ns'| && 0 <= l < ns'[k].forward.Length
      ensures ns'[k].forward[l] == Target(ns', k, l)
    {
      if l >= i {
        TargetAboveHeight(ns, q, n, ns', l, k);
      }
    }
  }

  lemma TargetAfterUnlink<K, V>(rest: seq<Node<K, V>>, q: nat, x: Node<K, V>, ns: seq<Node<K, V>>,
                                i: nat, j: nat, u: Node<K, V>, k: nat)
    requires q > 0 && Spliced(rest, q, x, ns) && Precedes(ns, q - 1, i, j, u) && i < x.forward.Length
    requires k < |ns| && k != q && ns[k].forward.Length > i
    ensures Target(rest, Before(q, k), i) == Target(ns, if k == j then q else k, i)
  {
    TargetFrom(rest, q, x, ns, i, q);
    if k < q {
      TargetBefore(rest, q, x, ns, i, k);
      assert rest[j] == u;
      assert NextAt(rest, k + 1, i) >= q <==> k == j;
      if k == j {
        NextAtIs(rest, q, i, NextAt(rest, k + 1, i));
      }
    } else {
      TargetFrom(rest, q, x, ns, i, k);
    }
  }

  /** Below level i, all nodes but the one at q point where they should without it. */
  ghost predicate Unlinked<K, V>(rest: seq<Node<K, V>>, ns: seq<Node<K, V>>, q: nat, i: nat)
    requires q < |ns| == |rest| + 1
    reads Arrays(ns)
  {
    forall k, l :: 0 <= k < |ns| && k != q && 0 <= l < ns[k].forward.Length && l < i ==>
      ns[k].forward[l] == Target(rest, Before(q, k), l)
  }

  ghost predicate LinkedFrom<K, V>(ns: seq<Node<K, V>>, i: nat)
    reads Arrays(ns)
  {
    forall k, l :: 0 <= k < |ns| && i <= l < ns[k].forward.Length ==> ns[k].forward[l] == Target(ns, k, l)
  }

  /** Lets u skip x on level i. */
  method Bypass<K, V>(x: Node<K, V>, u: Node<K, V>, i: nat,
                      ghost ns: seq<Node<K, V>>, ghost q: nat, ghost j: nat, ghost rest: seq<Node<K, V>>)
    requires q > 0 && Spliced(rest, q, x, ns) && Separate(ns)
    requires Precedes(ns, q - 1, i, j, u) && i < x.forward.Length
    requires forall k :: 0 <= k < |ns| && i < ns[k].forward.Length ==> ns[k].forward[i] == Target(ns, k, i)
    modifies u.forward
    ensures forall k :: 0 <= k < |ns| && k != q && i < ns[k].forward.Length ==>
            ns[k].forward[i] == Target(rest, Before(q, k), i)
    ensures forall k, l :: 0 <= k < |ns| && 0 <= l < ns[k].forward.Length && l != i ==>
            ns[k].forward[l] == old(ns[k].forward[l])
  {
    assert ns[j] == u && ns[q] == x;
    u.forward[i] := x.forward[i];
    forall k | 0 <= k < |ns| && k != q && ns[k].forward.Length > i
      ensures ns[k].forward[i] == Target(rest, Before(q, k), i)
    {
      TargetAfterUnlink(rest, q, x, ns, i, j, u, k);
    }
  }

  method UnlinkLevel<K, V>(x: Node<K, V>, u: Node<K, V>, i: nat,
                           ghost ns: seq<Node<K, V>>, ghost q: nat, ghost j: nat, ghost rest: seq<Node<K, V>>)
    requires q > 0 && Spliced(rest, q, x, ns) && Separate(ns)
    requires Precedes(ns, q - 1, i, j, u) && i < x.forward.Length
    requires Unlinked(rest, ns, q, i) && LinkedFrom(ns, i)
    modifies u.forward
    ensures Unlinked(rest, ns, q, i + 1) && LinkedFrom(ns, i + 1)
  {
    Bypass(x, u, i, ns, q, j, rest);
  }

  /** Takes x, at index q, out of all of its levels. */
  method UnlinkAll<K, V>(x: Node<K, V>, update: seq<Node<K, V>>, level: nat,
                         ghost ns: seq<Node<K, V>>, ghost q: nat, ghost us: seq<nat>,
                         ghost rest: seq<Node<K, V>>, ghost s: seq<Entry<K, V>>)
    requires q > 0 && Spliced(rest, q, x, ns) && Separate(ns)
    requires x.forward.Length <= level + 1 <= MAX_LEVEL == |update| == |us|
    requires forall l :: 0 <= l < MAX_LEVEL ==> Precedes(ns, q - 1, l, us[l], update[l])
    requires Linked(ns) && Holds(rest, s)
    modifies Arrays(ns)
    ensures Linked(rest) && Holds(rest, s)
  {
    var i := 0;
    while i <= level && update[i].forward[i] == x
      invariant 0 <= i <= x.forward.Length && Unlinked(rest, ns, q, i) && LinkedFrom(ns, i)
    {
      AimsAt(rest, q, x, ns, i, us[i], update[i]);
      UnlinkLevel(x, update[i], i, ns, q, us[i], rest);
      i := i + 1;
    }
    if i <= level {
      AimsAt(rest, q, x, ns, i, us[i], update[i]);
    }
    AllUnlinked(rest, q, x, ns);
  }

  lemma AllUnlinked<K, V>(rest: seq<Node<K, V>>, q: nat, x: Node<K, V>, ns: seq<Node<K, V>>)
    requires Spliced(rest, q, x, ns) && Unlinked(rest, ns, q, x.forward.Length) && LinkedFrom(ns, x.forward.Length)
    ensures Linked(rest)
  {
    forall k, l | 0 <= k < |rest| && 0 <= l < rest[k].forward.Length
      ensures rest[k].forward[l] == Target(rest, k, l)
    {
      var k' := if k < q then k else k + 1;
      assert ns[k'] == rest[k] && Before(q, k') == k;
      if l >= x.forward.Length {
        TargetAboveHeight(rest, q, x, ns, l, k');
      }
    }
  }

  /** The recorded predecessor points at x on exactly the levels x has. */
  lemma AimsAt<K, V>(rest: seq<Node<K, V>>, q: nat, x: Node<K, V>, ns: seq<Node<K, V>>, i: nat, j: nat, u: Node<K, V>)
    requires q > 0 && Spliced(rest, q, x, ns) && Precedes(ns, q - 1, i, j, u) && LinkedFrom(ns, i)
    ensures u.forward[i] == x <==> i < x.forward.Length
  {
    assert ns[q] == x && ns[j] == u;
  }

  lemma TargetAboveHeight<K, V>(ns: seq<Node<K, V>>, q: nat, n: Node<K, V>, ns': seq<Node<K, V>>, l: nat, k: nat)
    requires Spliced(ns, q, n, ns') && n.forward.Length <= l && k < |ns'| && k != q
    ensures Target(ns', k, l) == Target(ns, Before(q, k), l)
  {
    if k < q {
      TargetBefore(ns, q, n, ns', l, k);
    } else {
      TargetFrom(ns, q, n, ns', l, k);
    }
  }

  ghost predicate KeysSorted<K(!new), V>(cmp: (K, K) -> int, dom: iset<K>, ns: seq<Node<K, V>>) {
    && (forall i :: 1 <= i < |ns| ==> ns[i].key in dom)
    && (forall i, j :: 1 <= i < j < |ns| ==> cmp(ns[i].key, ns[j].key) < 0)
  }

  lemma SplicedKeys<K(!new), V>(cmp: (K, K) -> int, dom: iset<K>, ns: seq<Node<K, V>>, q: nat, n: Node<K, V>,
                                ns': seq<Node<K, V>>)
    requires TotalPreorder(cmp, dom) && KeysSorted(cmp, dom, ns) && n.key in dom
    requires q > 0 && Spliced(ns, q, n, ns')
    requires forall j :: 1 <= j < q ==> cmp(ns[j].key, n.key) < 0
    requires q < |ns| ==> cmp(n.key, ns[q].key) < 0
    ensures KeysSorted(cmp, dom, ns')
  {
    forall j | q < j < |ns|
      ensures cmp(n.key, ns[j].key) < 0
    {
      StrictlyBelow(cmp, dom, n.key, ns[q].key, ns[j].key);
    }
  }

  lemma SplicedEntries<K, V>(ns: seq<Node<K, V>>, q: nat, n: Node<K, V>, ns': seq<Node<K, V>>,
                             s: seq<Entry<K, V>>, s': seq<Entry<K, V>>)
    requires q > 0 && Spliced(ns, q, n, ns') && Holds(ns, s)
    requires s' == s[..q - 1] + [Entry(n.key, n.value)] + s[q - 1..]
    ensures Holds(ns', s')
  {
  }

  lemma SplicedShape<K, V>(ns: seq<Node<K, V>>, q: nat, n: Node<K, V>, ns': seq<Node<K, V>>, bound: nat)
    requires q > 0 && Spliced(ns, q, n, ns') && Shaped(ns) && Separate(ns) && NoTaller(ns, bound)
    requires n !in ns && n.forward !in Arrays(ns) && 1 <= n.forward.Length <= MAX_LEVEL
    ensures Shaped(ns') && Separate(ns')
    ensures NoTaller(ns', if n.forward.Length <= bound then bound else n.forward.Length)
  {
    assert forall k :: 0 <= k < |ns| ==> ns[k].forward in Arrays(ns);
  }

  lemma RestKeys<K(!new), V>(cmp: (K, K) -> int, dom: iset<K>, rest: seq<Node<K, V>>, q: nat, x: Node<K, V>,
                             ns: seq<Node<K, V>>)
    requires KeysSorted(cmp, dom, ns) && q > 0 && Spliced(rest, q, x, ns)
    ensures KeysSorted(cmp, dom, rest)
  {
    assert forall k :: 0 <= k < |rest| ==> rest[k] == ns[if k < q then k else k + 1];
  }

  lemma RestEntries<K, V>(rest: seq<Node<K, V>>, q: nat, x: Node<K, V>, ns: seq<Node<K, V>>,
                          s: seq<Entry<K, V>>, s': seq<Entry<K, V>>)
    requires q > 0 && Spliced(rest, q, x, ns) && Holds(ns, s')
    requires s == s'[..q - 1] + s'[q..]
    ensures Holds(rest, s)
  {
    assert forall k :: 0 <= k < |rest| ==> rest[k] == ns[if k < q then k else k + 1];
  }

  lemma RestShape<K, V>(rest: seq<Node<K, V>>, q: nat, x: Node<K, V>, ns: seq<Node<K, V>>, bound: nat)
    requires q > 0 && Spliced(rest, q, x, ns) && Shaped(ns) && Separate(ns) && NoTaller(ns, bound)
    ensures Shaped(rest) && Separate(rest) && NoTaller(rest, bound)
  {
    assert forall k :: 0 <= k < |rest| ==> rest[k] == ns[if k < q then k else k + 1];
  }

  /** What holds of the node sequence itself, apart from the pointers. */
  ghost predicate Arranged<K(!new), V>(cmp: (K, K) -> int, dom: iset<K>, ns: seq<Node<K, V>>, bound: nat) {
    Shaped(ns) && Separate(ns) && NoTaller(ns, bound) && KeysSorted(cmp, dom, ns)
  }

  lemma ArrangedWith<K(!new), V>(cmp: (K, K) -> int, dom: iset<K>, ns: seq<Node<K, V>>, q: nat, n: Node<K, V>,
                                 ns': seq<Node<K, V>>, bound: nat)
    requires Arranged(cmp, dom, ns, bound) && TotalPreorder(cmp, dom) && n.key in dom
    requires q > 0 && Spliced(ns, q, n, ns')
    requires n !in ns && n.forward !in Arrays(ns) && 1 <= n.forward.Length <= MAX_LEVEL
    requires forall j :: 1 <= j < q ==> cmp(ns[j].key, n.key) < 0
    requires q < |ns| ==> cmp(n.key, ns[q].key) < 0
    ensures Arranged(cmp, dom, ns', if n.forward.Length <= bound then bound else n.forward.Length)
  {
    SplicedShape(ns, q, n, ns', bound);
    SplicedKeys(cmp, dom, ns, q, n, ns');
  }

  lemma ArrangedWithout<K(!new), V>(cmp: (K, K) -> int, dom: iset<K>, rest: seq<Node<K, V>>, q: nat, x: Node<K, V>,
                                    ns: seq<Node<K, V>>, bound: nat)
    requires Arranged(cmp, dom, ns, bound) && q > 0 && Spliced(rest, q, x, ns)
    ensures Arranged(cmp, dom, rest, bound)
  {
    RestShape(rest, q, x, ns, bound);
    RestKeys(cmp, dom, rest, q, x, ns);
  }

  // ---- Histories of the sorted map ----

  datatype Op<K, V> = InsertOp(key: K, value: V) | DeleteOp(key: K) | SearchOp(key: K)

  datatype Outcome<K, V> = Outcome(entries: seq<Entry<K, V>>, answers: seq<Option<V>>)

  function Applied<K, V>(cmp: (K, K) -> int, s: seq<Entry<K, V>>, op: Op<K, V>): seq<Entry<K, V>> {
    match op
    case InsertOp(key, value) => Put(cmp, s, key, value)
    case DeleteOp(key) => Remove(cmp, s, key)
    case SearchOp(_) => s
  }

  function Answer<K, V>(cmp: (K, K) -> int, s: seq<Entry<K, V>>, op: Op<K, V>): seq<Option<V>> {
    if op.SearchOp? then [Get(cmp, s, op.key)] else []
  }

  /** The entries and answers after some operations; None once a delete has hit the header. */
  function Performed<K, V>(cmp: (K, K) -> int, sentinel: K, s: seq<Entry<K, V>>,
                           ops: seq<Op<K, V>>): Option<Outcome<K, V>> {
    if ops == [] then Some(Outcome(s, []))
    else
      var before, op := Performed(cmp, sentinel, s, ops[..|ops| - 1]), ops[|ops| - 1];
      if before.None? || (op.DeleteOp? && before.value.entries == [] && cmp(sentinel, op.key) == 0) then None
      else Some(Outcome(Applied(cmp, before.value.entries, op),
        before.value.answers + Answer(cmp, before.value.entries, op)))
  }

  lemma {:induction false} LostForGood<K, V>(cmp: (K, K) -> int, sentinel: K, s: seq<Entry<K, V>>, ops: seq<Op<K, V>>,
                                             n: nat)
    requires n <= |ops| && Performed(cmp, sentinel, s, ops[..n]).None?
    ensures Performed(cmp, sentinel, s, ops).None?
    decreases |ops| - n
  {
    if n < |ops| {
      assert ops[..n + 1][..n] == ops[..n];
      LostForGood(cmp, sentinel, s, ops, n + 1);
    } else {
      assert ops[..n] == ops;
    }
  }

  class Skiplist<K(==, !new), V(0)> {
    const cmp: (K, K) -> int
    const sentinel: K
    const header: Node<K, V>
    var level: nat
    var noItems: nat
    ghost const dom: iset<K>
    ghost var nodes: seq<Node<K, V>>
    ghost var contents: seq<Entry<K, V>>

    /** What the top-down walks rely on. */
    ghost predicate Structured()
      reads this, Arrays(nodes)
    {
      && Shaped(nodes) && NoTaller(nodes, level + 1) && Linked(nodes)
      && nodes[0] == header && level < MAX_LEVEL
    }

    /** All there is to say but for the pointers. */
    ghost predicate Filed()
      reads this, nodes
    {
      && Arranged(cmp, dom, nodes, level + 1) && nodes[0] == header && level < MAX_LEVEL
      && TotalPreorder(cmp, dom)
      && header.key == sentinel && sentinel !in dom
      && Holds(nodes, contents) && noItems == |contents|
    }

    ghost predicate Valid()
      reads this, nodes, Arrays(nodes)
    {
      Filed() && Linked(nodes)
    }

    lemma ContentsOrdered()
      requires Valid()
      ensures Ordered(cmp, dom, contents)
    {
    }

    constructor (cmp: (K, K) -> int, sentinel: K, ghost dom: iset<K>)
      requires TotalPreorder(cmp, dom) && sentinel !in dom
      ensures Valid() && contents == []
      ensures this.cmp == cmp && this.dom == dom && this.sentinel == sentinel
      ensures forall n :: n in nodes ==> fresh(n) && fresh(n.forward)
    {
      var v: V := *;
      this.cmp := cmp;
      this.sentinel := sentinel;
      this.dom := dom;
      header := new Node(sentinel, v, MAX_LEVEL);
      level := 0;
      noItems := 0;
      new;
      nodes := [header];
      contents := [];
    }

    predicate Comes(k: K, key: K, orEqual: bool) {
      if orEqual then cmp(k, key) <= 0 else cmp(k, key) < 0
    }

    /** Exactly the entries up to index r come before the key. */
    ghost predicate SplitsAt(key: K, orEqual: bool, r: nat)
      reads this
    {
      r < |nodes| && forall j :: 1 <= j < |nodes| ==> (Comes(nodes[j].key, key, orEqual) <==> j <= r)
    }

    lemma Split(key: K, orEqual: bool) returns (r: nat)
      requires TotalPreorder(cmp, dom) && KeysSorted(cmp, dom, nodes) && key in dom && nodes != []
      ensures SplitsAt(key, orEqual, r)
    {
      r := 0;
      while r + 1 < |nodes| && Comes(nodes[r + 1].key, key, orEqual)
        invariant r < |nodes|
        invariant forall j :: 1 <= j <= r ==> Comes(nodes[j].key, key, orEqual)
      {
        r := r + 1;
      }
      forall j | r + 1 < j < |nodes|
        ensures !Comes(nodes[j].key, key, orEqual)
      {
        StrictlyBelow(cmp, dom, key, nodes[r + 1].key, nodes[j].key);
      }
    }

    /** The top-down walk of the searches: ends at the last node before the key. */
    method Descend(key: K, orEqual: bool, ghost r: nat) returns (x: Node<K, V>)
      requires Structured() && SplitsAt(key, orEqual, r)
      ensures Structured() && x == nodes[r]
    {
      x := header;
      ghost var p := 0;
      var i: int := level;
      while i >= 0
        invariant -1 <= i <= level
        invariant 0 <= p <= r && x == nodes[p] && x.forward.Length > i
        invariant i == -1 ==> p == r
      {
        while x.forward[i] != null && Comes(x.forward[i].key, key, orEqual)
          invariant 0 <= p <= r && x == nodes[p] && x.forward.Length > i
          decreases |nodes| - p
        {
          p := NextAt(nodes, p + 1, i);
          x := x.forward[i];
        }
        i := i - 1;
      }
    }

    lemma BottomLevel(p: nat)
      requires Structured() && p < |nodes|
      ensures nodes[p].forward[0] == At(nodes, p + 1)
    {
      assert NextAt(nodes, p + 1, 0) == p + 1;
    }

    lemma RankAt(key: K, p: nat)
      requires Valid() && SplitsAt(key, false, p)
      ensures Rank(cmp, contents, key) == p
    {
      var s := contents;
      forall i | 0 <= i < |s|
        ensures cmp(s[i].key, key) < 0 <==> i < p
      {
        assert s[i].key == nodes[i + 1].key;
        assert Comes(nodes[i + 1].key, key, false) <==> i + 1 <= p;
      }
      RankUnique(cmp, s, key, p);
    }

    lemma LookupAt(key: K, p: nat)
      requires Valid() && key in dom && SplitsAt(key, true, p)
      ensures Get(cmp, contents, key) ==
              if p > 0 && cmp(key, nodes[p].key) == 0 then Some(nodes[p].value) else None
    {
      var s := contents;
      ContentsOrdered();
      if p > 0 && cmp(key, nodes[p].key) == 0 {
        assert s[p - 1].key == nodes[p].key;
        GetFinds(cmp, dom, s, key, p - 1);
      } else {
        forall i | 0 <= i < |s|
          ensures cmp(s[i].key, key) != 0
        {
          assert s[i].key == nodes[i + 1].key;
          NotEqualAt(key, p, i + 1);
        }
        HasIffStored(cmp, dom, s, key);
      }
    }

    lemma NotEqualAt(key: K, p: nat, j: nat)
      requires TotalPreorder(cmp, dom) && KeysSorted(cmp, dom, nodes) && key in dom && SplitsAt(key, true, p)
      requires p > 0 ==> cmp(key, nodes[p].key) != 0
      requires 1 <= j < |nodes|
      ensures cmp(nodes[j].key, key) != 0
    {
      assert Comes(nodes[j].key, key, true) <==> j <= p;
      if j < p {
        assert Comes(nodes[p].key, key, true);
        StrictlyBelow(cmp, dom, nodes[j].key, nodes[p].key, key);
      }
    }

    /** skiplist_search: lookup. */
    method Search(key: K) returns (x: Node?<K, V>)
      requires Valid() && key in dom
      ensures x != null ==> x in nodes
      ensures Get(cmp, contents, key) == if x == null then None else Some(x.value)
    {
      ghost var p := Split(key, true);
      var y := Descend(key, true, p);
      LookupAt(key, p);
      if y.key != sentinel && cmp(key, y.key) == 0 {
        x := y;
      } else {
        x := null;
      }
    }

    /** skiplist_search_higher: the entry with the least key not below the argument. */
    method SearchHigher(key: K) returns (x: Node?<K, V>)
      requires Valid() && key in dom
      ensures x == At(nodes, Rank(cmp, contents, key) + 1)
    {
      ghost var p := Split(key, false);
      var y := Descend(key, false, p);
      BottomLevel(p);
      RankAt(key, p);
      x := y.forward[0];
    }

    /** The walk of insert and delete: also records, per level, the last node before the key. */
    method FindPredecessors(key: K, ghost r: nat) returns (x: Node<K, V>, update: seq<Node<K, V>>, ghost us: seq<nat>)
      requires Structured() && SplitsAt(key, false, r)
      ensures Structured() && x == nodes[r]
      ensures |update| == MAX_LEVEL == |us|
      ensures forall l :: 0 <= l < MAX_LEVEL ==> Precedes(nodes, r, l, us[l], update[l])
    {
      x := header;
      ghost var p := 0;
      update := [header, header, header, header, header, header];
      us := [0, 0, 0, 0, 0, 0];
      var i: int := level;
      while i >= 0
        invariant -1 <= i <= level
        invariant 0 <= p <= r && x == nodes[p] && x.forward.Length > i
        invariant i == -1 ==> p == r
        invariant |us| == MAX_LEVEL == |update|
        invariant forall l :: i < l < MAX_LEVEL ==> Precedes(nodes, r, l, us[l], update[l])
      {
        while x.forward[i] != null && cmp(x.forward[i].key, key) < 0
          invariant 0 <= p <= r && x == nodes[p] && x.forward.Length > i
          decreases |nodes| - p
        {
          p := NextAt(nodes, p + 1, i);
          x := x.forward[i];
        }
        update := update[i := x];
        us := us[i := p];
        i := i - 1;
      }
    }

    /** skiplist_insert: the new node may get any level, since rand_level is not modelled. */
    method Insert(key: K, value: V)
      requires Valid() && key in dom
      modifies this, nodes, Arrays(nodes)
      ensures Valid()
      ensures forall n :: n in nodes ==> n in old(nodes) || (fresh(n) && fresh(n.forward))
      ensures contents == Put(cmp, old(contents), key, value)
    {
      ghost var p := Split(key, false);
      RankAt(key, p);
      BottomLevel(p);
      var x, update, us := FindPredecessors(key, p);
      var next := x.forward[0];
      if next != null && cmp(key, next.key) == 0 {
        Overwrite(next, value, p);
      } else {
        InsertNew(key, value, update, p, us);
      }
    }

    method Overwrite(x: Node<K, V>, value: V, ghost p: nat)
      requires Valid() && p + 1 < |nodes| && x == nodes[p + 1]
      modifies this`contents, x
      ensures Valid()
      ensures contents == old(contents)[p := Entry(x.key, value)] && nodes == old(nodes)
    {
      x.value := value;
      contents := contents[p := Entry(x.key, value)];
    }

    method InsertNew(key: K, value: V, update: seq<Node<K, V>>, ghost p: nat, ghost us: seq<nat>)
      requires Valid() && key in dom && SplitsAt(key, false, p)
      requires p + 1 < |nodes| ==> cmp(key, nodes[p + 1].key) < 0
      requires |update| == MAX_LEVEL == |us|
      requires forall l :: 0 <= l < MAX_LEVEL ==> Precedes(nodes, p, l, us[l], update[l])
      modifies this, Arrays(nodes)
      ensures Valid()
      ensures forall n :: n in nodes ==> n in old(nodes) || (fresh(n) && fresh(n.forward))
      ensures contents == old(contents)[..p] + [Entry(key, value)] + old(contents)[p..]
    {
      var lvl: nat :| lvl < MAX_LEVEL;
      var n := new Node(key, value, lvl + 1);
      Attach(n, update, p, us);
    }

    method Attach(n: Node<K, V>, update: seq<Node<K, V>>, ghost p: nat, ghost us: seq<nat>)
      requires Valid() && n.key in dom && SplitsAt(n.key, false, p)
      requires p + 1 < |nodes| ==> cmp(n.key, nodes[p + 1].key) < 0
      requires n !in nodes && n.forward !in Arrays(nodes) && 1 <= n.forward.Length <= MAX_LEVEL
      requires |update| == MAX_LEVEL == |us|
      requires forall l :: 0 <= l < MAX_LEVEL ==> Precedes(nodes, p, l, us[l], update[l])
      modifies this, Arrays(nodes), n.forward
      ensures Valid() && nodes == SpliceIn(old(nodes), p + 1, n)
      ensures contents == old(contents)[..p] + [Entry(n.key, n.value)] + old(contents)[p..]
    {
      ghost var ns := nodes;
      MakeRoom(n, p);
      LinkNew(n, update, ns, p + 1, us);
    }

    /** Everything but the pointers changes. */
    method MakeRoom(n: Node<K, V>, ghost p: nat)
      requires Valid() && n.key in dom && SplitsAt(n.key, false, p)
      requires p + 1 < |nodes| ==> cmp(n.key, nodes[p + 1].key) < 0
      requires n !in nodes && n.forward !in Arrays(nodes) && 1 <= n.forward.Length <= MAX_LEVEL
      modifies this
      ensures Filed() && nodes == SpliceIn(old(nodes), p + 1, n)
      ensures contents == old(contents)[..p] + [Entry(n.key, n.value)] + old(contents)[p..]
    {
      ghost var ns' := SpliceIn(nodes, p + 1, n);
      ghost var s' := contents[..p] + [Entry(n.key, n.value)] + contents[p..];
      ArrangedWith(cmp, dom, nodes, p + 1, n, ns', level + 1);
      SplicedEntries(nodes, p + 1, n, ns', contents, s');
      if n.forward.Length - 1 > level {
        level := n.forward.Length - 1;
      }
      noItems := noItems + 1;
      nodes, contents := ns', s';
    }

    /** The pointers follow once the ghost view says where the new node goes. */
    method LinkNew(n: Node<K, V>, update: seq<Node<K, V>>, ghost ns: seq<Node<K, V>>, ghost q: nat, ghost us: seq<nat>)
      requires Filed() && q > 0 && Spliced(ns, q, n, nodes) && Linked(ns) &&
               n.forward.Length <= MAX_LEVEL == |update| == |us|
      requires forall l :: 0 <= l < MAX_LEVEL ==> Precedes(ns, q - 1, l, us[l], update[l])
      modifies Arrays(nodes)
      ensures Valid()
    {
      LinkAll(n, update, ns, q, us, nodes, contents);
    }

    /** On an empty list the walk of skiplist_delete ends at the header. */
    ghost predicate FreesHeader(key: K)
      reads this
    {
      contents == [] && cmp(sentinel, key) == 0
    }

    /** skiplist_delete: removes just that key. Only if the list is empty and the header's key
        compares equal does it take the header for the node to free; the list is lost then. */
    method Delete(key: K) returns (value: Option<V>, headerFreed: bool)
      requires Valid() && key in dom
      modifies this, Arrays(nodes)
      ensures headerFreed <==> old(FreesHeader(key))
      ensures forall n :: n in nodes ==> n in old(nodes)
      ensures !headerFreed ==> Valid() && contents == Remove(cmp, old(contents), key)
      ensures !headerFreed ==> value == Get(cmp, old(contents), key)
    {
      ghost var p := Split(key, false);
      BottomLevel(p);
      var x, update, us := FindPredecessors(key, p);
      var y := if x.forward[0] != null then x.forward[0] else x;
      value, headerFreed := None, false;
      HitIffStored(key, p, y);
      if cmp(y.key, key) == 0 {
        if y == header {
          headerFreed := true;
          return;
        }
        value := Some(y.value);
        RemoveNode(y, update, p, us);
      }
    }

    method RemoveNode(x: Node<K, V>, update: seq<Node<K, V>>, ghost p: nat, ghost us: seq<nat>)
      requires Valid() && p + 1 < |nodes| && x == nodes[p + 1]
      requires |update| == MAX_LEVEL == |us|
      requires forall l :: 0 <= l < MAX_LEVEL ==> Precedes(nodes, p, l, us[l], update[l])
      modifies this, Arrays(nodes)
      ensures Valid() && forall n :: n in nodes ==> n in old(nodes)
      ensures contents == old(contents)[..p] + old(contents)[p + 1..]
    {
      Detach(x, update, p, us);
      ShrinkLevel();
    }

    /** The node the walk of a delete ends at compares equal exactly when the key is stored, or when
        it is the header and looks like it. */
    lemma HitIffStored(key: K, p: nat, y: Node<K, V>)
      requires Valid() && key in dom && SplitsAt(key, false, p)
      requires y == if p + 1 < |nodes| then nodes[p + 1] else nodes[p]
      ensures Rank(cmp, contents, key) == p
      ensures cmp(y.key, key) == 0 <==> Has(cmp, contents, key) || FreesHeader(key)
      ensures Has(cmp, contents, key) ==> p + 1 < |nodes| && y != header
      ensures FreesHeader(key) ==> y == header
    {
      RankAt(key, p);
      if p + 1 < |nodes| {
        assert contents[p].key == y.key;
        HeaderOnce(p + 1);
      } else if p > 0 {
        assert Comes(nodes[p].key, key, false);
      }
    }

    lemma HeaderOnce(p: nat)
      requires Valid() && 1 <= p < |nodes|
      ensures nodes[p] != header
    {
    }

    method Detach(x: Node<K, V>, update: seq<Node<K, V>>, ghost p: nat, ghost us: seq<nat>)
      requires Valid() && p + 1 < |nodes| && x == nodes[p + 1]
      requires |update| == MAX_LEVEL == |us|
      requires forall l :: 0 <= l < MAX_LEVEL ==> Precedes(nodes, p, l, us[l], update[l])
      modifies this`noItems, this`nodes, this`contents, Arrays(nodes)
      ensures Valid() && forall n :: n in nodes ==> n in old(nodes)
      ensures contents == old(contents)[..p] + old(contents)[p + 1..]
    {
      ghost var ns := nodes;
      ghost var rest := SpliceOut(ns, p + 1);
      ghost var s := contents[..p] + contents[p + 1..];
      ArrangedWithout(cmp, dom, rest, p + 1, x, ns, level + 1);
      RestEntries(rest, p + 1, x, ns, s, contents);
      noItems := noItems - 1;
      nodes, contents := rest, s;
      UnlinkAll(x, update, level, ns, p + 1, us, rest, s);
    }

    method ShrinkLevel()
      requires Valid()
      modifies this`level
      ensures Valid()
    {
      while level > 0 && header.forward[level] == null
        invariant Valid()
      {
        assert NextAt(nodes, 1, level) == |nodes|;
        level := level - 1;
      }
    }

    /** Inserting past the last key appends. */
    method Append(key: K, value: V)
      requires Valid() && key in dom
      requires forall i :: 0 <= i < |contents| ==> cmp(contents[i].key, key) < 0
      modifies this, nodes, Arrays(nodes)
      ensures Valid()
      ensures forall n :: n in nodes ==> n in old(nodes) || (fresh(n) && fresh(n.forward))
      ensures contents == old(contents) + [Entry(key, value)]
    {
      RankUnique(cmp, contents, key, |contents|);
      Insert(key, value);
    }

    /** What a walk along the bottom level sees. */
    ghost predicate Listed()
      reads this, nodes, Arrays(nodes)
    {
      && nodes != [] && nodes[0] == header && Holds(nodes, contents)
      && forall p :: 0 <= p < |nodes| ==> nodes[p].forward.Length > 0 && nodes[p].forward[0] == At(nodes, p + 1)
    }

    lemma ValidIsListed()
      requires Valid()
      ensures Listed()
    {
      forall p | 0 <= p < |nodes|
        ensures nodes[p].forward.Length > 0 && nodes[p].forward[0] == At(nodes, p + 1)
      {
        BottomLevel(p);
      }
    }

    /** A walk along the list from its head to its end counts the entries. */
    method WalkToEnd() returns (start: Node<K, V>, end: Node<K, V>, n: nat)
      requires Valid() && contents != []
      ensures start == nodes[1] && end == nodes[|nodes| - 1] && n == noItems == |contents|
    {
      ValidIsListed();
      start := header.forward[0];
      end, n := start, 1;
      while end.forward[0] != null
        invariant 1 <= n <= |contents| && end == nodes[n] && Listed()
        decreases |contents| - n
      {
        end, n := end.forward[0], n + 1;
      }
    }

    /** skiplist_clone: entries arrive in key order, so each one goes to the end of the copy. */
    method Clone() returns (copy: Skiplist<K, V>)
      requires Valid()
      ensures fresh(copy) && copy.Valid() && copy.contents == contents
      ensures forall n :: n in copy.nodes ==> fresh(n) && fresh(n.forward)
      ensures copy.cmp == cmp && copy.dom == dom && copy.sentinel == sentinel
    {
      ValidIsListed();
      copy := CopyEntries();
    }

    method CopyEntries() returns (copy: Skiplist<K, V>)
      requires Listed() && Ordered(cmp, dom, contents) && sentinel !in dom
      ensures fresh(copy) && copy.Valid() && copy.contents == contents
      ensures forall n :: n in copy.nodes ==> fresh(n) && fresh(n.forward)
      ensures copy.cmp == cmp && copy.dom == dom && copy.sentinel == sentinel
    {
      copy := new Skiplist<K, V>(cmp, sentinel, dom);
      var crt := header.forward[0];
      ghost var i := 0;
      while crt != null
        invariant 0 <= i <= |contents| && crt == At(nodes, i + 1)
        invariant fresh(copy) && copy.Valid() && copy.contents == contents[..i]
        invariant forall n :: n in copy.nodes ==> fresh(n) && fresh(n.forward)
        invariant copy.cmp == cmp && copy.dom == dom && copy.sentinel == sentinel
        decreases |contents| - i
      {
        assert contents[i] == Entry(crt.key, crt.value) && contents[..i + 1] == contents[..i] + [contents[i]];
        copy.Append(crt.key, crt.value);
        i := i + 1;
        crt := crt.forward[0];
      }
    }

    /** Any sequence of operations: the list goes through the states of the sorted map, searches
        answer as it does, and the run ends early exactly when a delete frees the header. */
    method Perform(ops: seq<Op<K, V>>) returns (answers: seq<Option<V>>, intact: bool)
      requires Valid() && forall i :: 0 <= i < |ops| ==> ops[i].key in dom
      modifies this, nodes, Arrays(nodes)
      ensures intact <==> Performed(cmp, sentinel, old(contents), ops).Some?
      ensures intact ==>
                Valid() && Outcome(contents, answers) == Performed(cmp, sentinel, old(contents), ops).value
    {
      answers, intact := [], true;
      for i := 0 to |ops|
        invariant Valid() && intact
        invariant forall n :: n in nodes ==> n in old(nodes) || (fresh(n) && fresh(n.forward))
        invariant Performed(cmp, sentinel, old(contents), ops[..i]) == Some(Outcome(contents, answers))
      {
        assert ops[..i + 1][..i] == ops[..i];
        var answer;
        answer, intact := PerformOne(ops[i]);
        if !intact {
          LostForGood(cmp, sentinel, old(contents), ops, i + 1);
          return;
        }
        answers := answers + answer;
      }
      assert ops[..|ops|] == ops;
    }

    method PerformOne(op: Op<K, V>) returns (answer: seq<Option<V>>, intact: bool)
      requires Valid() && op.key in dom
      modifies this, nodes, Arrays(nodes)
      ensures forall n :: n in nodes ==> n in old(nodes) || (fresh(n) && fresh(n.forward))
      ensures intact <==> !(op.DeleteOp? && old(FreesHeader(op.key)))
      ensures intact ==>
                Valid() && contents == Applied(cmp, old(contents), op) && answer == Answer(cmp, old(contents), op)
    {
      answer, intact := [], true;
      match op
      case InsertOp(key, value) => Insert(key, value);
      case DeleteOp(key) =>
        var value, headerFreed := Delete(key);
        intact := !headerFreed;
      case SearchOp(key) =>
        var x := Search(key);
        answer := [if x == null then None else Some(x.value)];
    }
  }

  /** An empty list of 64-bit keys takes its header for an entry with key 2^32 - 1. */
  lemma HeaderTakenForEntry(list: Skiplist<int, int>)
    requires list.Valid() && list.contents == [] && list.cmp == LongCmp && list.sentinel == LONG_MAX
    ensures list.FreesHeader(0xFFFF_FFFF)
  {
  }
}
