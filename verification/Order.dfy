/** Comparators as the backend uses them: a C function returning a signed int.
    A skiplist only behaves as an ordered map when its comparator is a total preorder
    on the keys it is given, so that condition is stated relative to a domain. */
module Order {

  /** Instantiates the transitivity clause below; always true. */
  ghost predicate Chain<K>(a: K, b: K, c: K) {
    true
  }

  ghost predicate TotalPreorder<K(!new)>(cmp: (K, K) -> int, dom: iset<K>) {
    && (forall a, b :: a in dom && b in dom ==> (cmp(a, b) < 0 <==> cmp(b, a) > 0))
    && (forall a, b, c {:trigger Chain(a, b, c)} ::
          a in dom && b in dom && c in dom && Chain(a, b, c) && cmp(a, b) <= 0 && cmp(b, c) <= 0 ==> cmp(a, c) <= 0)
  }

  lemma StrictlyBelow<K(!new)>(cmp: (K, K) -> int, dom: iset<K>, a: K, b: K, c: K)
    requires TotalPreorder(cmp, dom) && a in dom && b in dom && c in dom
    requires cmp(a, b) <= 0 && cmp(b, c) <= 0
    requires cmp(a, b) < 0 || cmp(b, c) < 0
    ensures cmp(a, c) < 0
  {
    assert Chain(a, b, c) && Chain(b, c, a) && Chain(c, a, b);
  }

  lemma EqualActsAlike<K(!new)>(cmp: (K, K) -> int, dom: iset<K>, a: K, b: K, c: K)
    requires TotalPreorder(cmp, dom) && a in dom && b in dom && c in dom
    requires cmp(a, b) == 0
    ensures cmp(a, c) < 0 <==> cmp(b, c) < 0
    ensures cmp(a, c) == 0 <==> cmp(b, c) == 0
  {
    assert Chain(a, b, c) && Chain(b, a, c) && Chain(c, a, b) && Chain(c, b, a);
  }

  // ---- The 64-bit key comparator ----

  const TWO31 := 0x8000_0000
  const TWO32 := 0x1_0000_0000

  /** The C conversion from int64_t to int: keep the low 32 bits, read as two's complement. */
  function Trunc32(x: int): (r: int)
    ensures -TWO31 <= r < TWO31
    ensures (x - r) % TWO32 == 0
  {
    var low := x % TWO32;
    if low < TWO31 then low else low - TWO32
  }

  function LongCmp(a: int, b: int): int {
    Trunc32(a - b)
  }

  ghost predicate AgreesWithOrder(a: int, b: int) {
    && (LongCmp(a, b) < 0 <==> a < b)
    && (LongCmp(a, b) == 0 <==> a == b)
  }

  /** A key interval on which LongCmp is the usual order: exactly those of length at most 2^31.
      Ring positions fill [0, 2^32), so they are not covered. */
  lemma LongCmpOrdersInterval(lo: int, n: nat)
    ensures (forall a, b :: lo <= a < lo + n && lo <= b < lo + n ==> AgreesWithOrder(a, b)) <==> n <= TWO31
  {
    if n <= TWO31 {
      forall a, b | lo <= a < lo + n && lo <= b < lo + n
        ensures AgreesWithOrder(a, b)
      {
        assert -TWO31 < a - b < TWO31;
      }
    } else {
      assert LongCmp(lo + TWO31, lo) == -TWO31;
      assert !AgreesWithOrder(lo + TWO31, lo);
    }
  }

  /** On the full 32-bit range LongCmp is not even transitive. */
  lemma LongCmpCycle()
    ensures LongCmp(0, 0x6000_0000) < 0 && LongCmp(0x6000_0000, 0xC000_0000) < 0 && LongCmp(0xC000_0000, 0) < 0
  {
  }

  /** The key of every list's header. */
  const LONG_MAX := 0x7FFF_FFFF_FFFF_FFFF

  /** Keys that the comparator does not tell from the header's: those whose low 32 bits are all set. */
  predicate LooksLikeHeader(key: int) {
    LongCmp(LONG_MAX, key) == 0
  }

  lemma LooksLikeHeaderIff(key: int)
    ensures LooksLikeHeader(key) <==> key % TWO32 == TWO32 - 1
  {
    var q := (LONG_MAX - key) / TWO32;
    assert LONG_MAX % TWO32 == TWO32 - 1;
    assert LooksLikeHeader(key) <==> (LONG_MAX - key) % TWO32 == 0;
  }

  predicate InWindow(lo: int, k: int) {
    lo <= k < lo + TWO31
  }

  lemma LongCmpPreorder(lo: int)
    ensures TotalPreorder(LongCmp, iset k | InWindow(lo, k))
  {
    var dom := iset k | InWindow(lo, k);
    LongCmpOrdersInterval(lo, TWO31);
    forall a, b | a in dom && b in dom
      ensures LongCmp(a, b) < 0 <==> LongCmp(b, a) > 0
    {
      assert AgreesWithOrder(a, b) && AgreesWithOrder(b, a);
    }
    forall a, b, c | a in dom && b in dom && c in dom && Chain(a, b, c) && LongCmp(a, b) <= 0 && LongCmp(b, c) <= 0
      ensures LongCmp(a, c) <= 0
    {
      assert AgreesWithOrder(a, b) && AgreesWithOrder(b, c) && AgreesWithOrder(a, c);
    }
  }

  /** The intended order of ids and hashes. */
  function IdCmp(a: int, b: int): int {
    a - b
  }
}
