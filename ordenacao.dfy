/** In-place quicksort with Lomuto partitioning (last element as pivot), in
    two variants: the natural order of `int`, and a caller-supplied
    comparison function. Thrown errors are `Err`/`Fail` results; a call that
    throws leaves the array as it was. */
module Ordenacao {
  import opened Wrappers

  // ---------------------------------------------------------------------
  // Specification predicates
  // ---------------------------------------------------------------------

  /** `b` is `a` with the cells of [lo, hi) permuted and every other cell kept. */
  ghost predicate PermutedWithin(a: seq<int>, b: seq<int>, lo: int, hi: int) {
    && |a| == |b| && 0 <= lo <= hi <= |a|
    && Bag(a) == Bag(b)
    && (forall k :: 0 <= k < |a| && !(lo <= k < hi) ==> a[k] == b[k])
  }

  /** The elements of `s` with their multiplicities, gathered from the last
      cell down; it is `multiset(s)` (BagIsMultiset). Written recursively so
      that a fact about it is unfolded only where a proof asks for it. */
  ghost function Bag(s: seq<int>): multiset<int>
    decreases |s|
  {
    if s == [] then multiset{} else Bag(s[..|s| - 1]) + multiset{s[|s| - 1]}
  }

  lemma {:induction false} BagIsMultiset(s: seq<int>)
    ensures Bag(s) == multiset(s)
  {
    if s != [] {
      BagIsMultiset(s[..|s| - 1]);
      assert s == s[..|s| - 1] + [s[|s| - 1]];
    }
  }

  /** `s` with the cells `i` and `j` exchanged. */
  function Swapped(s: seq<int>, i: int, j: int): (r: seq<int>)
    requires 0 <= i < |s| && 0 <= j < |s|
    ensures |r| == |s| && r[i] == s[j] && r[j] == s[i]
    ensures forall k :: 0 <= k < |s| && k != i && k != j ==> r[k] == s[k]
  {
    s[i := s[j]][j := s[i]]
  }

  ghost predicate SortedBetween(a: seq<int>, lo: int, hi: int)
    requires 0 <= lo <= hi <= |a|
  {
    forall i, j :: lo <= i < j < hi ==> a[i] <= a[j]
  }

  /** The cells of [lo, p) are at most `a[p]` and those of (p, hi] exceed it. */
  ghost predicate Partitioned(a: seq<int>, lo: int, p: int, hi: int)
    requires 0 <= lo <= p <= hi < |a|
  {
    && (forall k :: lo <= k < p ==> a[k] <= a[p])
    && (forall k :: p < k <= hi ==> a[k] > a[p])
  }

  /** `compare(x, y) <= 0` is a total preorder: what "sorted by compare"
      needs to make sense. */
  ghost predicate TotalPreorder(compare: (int, int) -> int) {
    && (forall x, y :: ComparesTotally(compare, x, y))
    && (forall x, y, z :: ComparesTransitively(compare, x, y, z))
  }

  /** The two halves of `TotalPreorder`, one instance at a time (so that a
      proof names the instances it uses). */
  ghost predicate ComparesTotally(compare: (int, int) -> int, x: int, y: int) {
    compare(x, y) <= 0 || compare(y, x) <= 0
  }

  ghost predicate ComparesTransitively(compare: (int, int) -> int, x: int, y: int, z: int) {
    compare(x, y) <= 0 && compare(y, z) <= 0 ==> compare(x, z) <= 0
  }

  /** Two values that compare both ways are equal. */
  ghost predicate Antisymmetric(compare: (int, int) -> int) {
    forall x, y :: ComparesAntisymmetrically(compare, x, y)
  }

  ghost predicate ComparesAntisymmetrically(compare: (int, int) -> int, x: int, y: int) {
    compare(x, y) <= 0 && compare(y, x) <= 0 ==> x == y
  }

  ghost predicate SortedBy(a: seq<int>, lo: int, hi: int, compare: (int, int) -> int)
    requires 0 <= lo <= hi <= |a|
  {
    forall i, j :: lo <= i < j < hi ==> compare(a[i], a[j]) <= 0
  }

  ghost predicate PartitionedBy(a: seq<int>, lo: int, p: int, hi: int, compare: (int, int) -> int)
    requires 0 <= lo <= p <= hi < |a|
  {
    && (forall k :: lo <= k < p ==> compare(a[k], a[p]) <= 0)
    && (forall k :: p < k <= hi ==> compare(a[k], a[p]) > 0)
  }

  // ---------------------------------------------------------------------
  // Lemmas about permutations of a slice
  // ---------------------------------------------------------------------

  lemma PermutedWithinRefl(a: seq<int>, lo: int, hi: int)
    requires 0 <= lo <= hi <= |a|
    ensures PermutedWithin(a, a, lo, hi)
  {
  }

  /** Swapping two cells inside the slice keeps it a permutation. */
  lemma PermutedWithinSwap(a: seq<int>, b: seq<int>, lo: int, hi: int, i: int, j: int)
    requires PermutedWithin(a, b, lo, hi)
    requires lo <= i < hi && lo <= j < hi
    ensures PermutedWithin(a, Swapped(b, i, j), lo, hi)
  {
    BagIsMultiset(b);
    BagIsMultiset(Swapped(b, i, j));
  }

  lemma PermutedWithinTrans(a: seq<int>, b: seq<int>, c: seq<int>, lo: int, hi: int)
    requires PermutedWithin(a, b, lo, hi) && PermutedWithin(b, c, lo, hi)
    ensures PermutedWithin(a, c, lo, hi)
  {
  }

  /** A permutation of a smaller slice is a permutation of a larger one. */
  lemma PermutedWithinWiden(a: seq<int>, b: seq<int>, lo: int, hi: int, lo': int, hi': int)
    requires PermutedWithin(a, b, lo', hi')
    requires 0 <= lo <= lo' && hi' <= hi <= |a|
    ensures PermutedWithin(a, b, lo, hi)
  {
  }

  /** The whole sequence holds the same elements before and after. */
  lemma PermutedWithinElements(a: seq<int>, b: seq<int>, lo: int, hi: int)
    requires PermutedWithin(a, b, lo, hi)
    ensures multiset(a) == multiset(b)
  {
    BagIsMultiset(a);
    BagIsMultiset(b);
  }

  /** Cells outside the slice are untouched. */
  lemma PermutedWithinOutside(a: seq<int>, b: seq<int>, lo: int, hi: int, k: int)
    requires PermutedWithin(a, b, lo, hi)
    requires 0 <= k < lo || hi <= k < |a|
    ensures a[k] == b[k]
  {
  }

  lemma MultisetCancel(a: seq<int>, b: seq<int>, pre: seq<int>, suf: seq<int>, x: seq<int>, y: seq<int>)
    requires a == pre + x + suf && b == pre + y + suf && multiset(a) == multiset(b)
    ensures multiset(x) == multiset(y)
  {
    assert multiset(a) == multiset(pre) + multiset(x) + multiset(suf);
    assert multiset(b) == multiset(pre) + multiset(y) + multiset(suf);
    forall v ensures multiset(x)[v] == multiset(y)[v] {
      assert multiset(a)[v] == multiset(pre)[v] + multiset(x)[v] + multiset(suf)[v];
      assert multiset(b)[v] == multiset(pre)[v] + multiset(y)[v] + multiset(suf)[v];
    }
  }

  /** The slice itself holds the same elements before and after. */
  lemma PermutedWithinSlice(a: seq<int>, b: seq<int>, lo: int, hi: int)
    requires PermutedWithin(a, b, lo, hi)
    ensures multiset(a[lo..hi]) == multiset(b[lo..hi])
  {
    BagIsMultiset(a);
    BagIsMultiset(b);
    PermutedWithinSplit(a, b, lo, hi);
    MultisetCancel(a, b, a[..lo], a[hi..], a[lo..hi], b[lo..hi]);
  }

  /** Both sequences are the same prefix and suffix around their slices. */
  lemma PermutedWithinSplit(a: seq<int>, b: seq<int>, lo: int, hi: int)
    requires PermutedWithin(a, b, lo, hi)
    ensures a == a[..lo] + a[lo..hi] + a[hi..] && b == a[..lo] + b[lo..hi] + a[hi..]
  {
    assert a[..lo] == b[..lo];
    assert a[hi..] == b[hi..];
    assert a == a[..lo] + a[lo..hi] + a[hi..];
    assert b == b[..lo] + b[lo..hi] + b[hi..];
  }

  /** A property of every cell of the slice survives a permutation of it. */
  lemma PermutedWithinKeeps(a: seq<int>, b: seq<int>, lo: int, hi: int, p: int -> bool)
    requires PermutedWithin(a, b, lo, hi)
    requires forall k :: lo <= k < hi ==> p(a[k])
    ensures forall k :: lo <= k < hi ==> p(b[k])
  {
    PermutedWithinSlice(a, b, lo, hi);
    forall k | lo <= k < hi ensures p(b[k]) {
      assert b[k] == b[lo..hi][k - lo];
      assert b[k] in multiset(a[lo..hi]);
      var m :| 0 <= m < hi - lo && a[lo..hi][m] == b[k];
      assert a[lo + m] == b[k];
    }
  }

  /** Joining a sorted left part, the pivot and a sorted right part. */
  lemma SortedJoin(a: seq<int>, lo: int, p: int, hi: int)
    requires 0 <= lo <= p < hi <= |a|
    requires SortedBetween(a, lo, p) && SortedBetween(a, p + 1, hi)
    requires Partitioned(a, lo, p, hi - 1)
    ensures SortedBetween(a, lo, hi)
  {
  }

  lemma SortedByJoin(a: seq<int>, lo: int, p: int, hi: int, compare: (int, int) -> int)
    requires TotalPreorder(compare)
    requires 0 <= lo <= p < hi <= |a|
    requires SortedBy(a, lo, p, compare) && SortedBy(a, p + 1, hi, compare)
    requires PartitionedBy(a, lo, p, hi - 1, compare)
    ensures SortedBy(a, lo, hi, compare)
  {
    forall i, j | lo <= i < j < hi ensures compare(a[i], a[j]) <= 0 {
      if i < p < j {
        assert ComparesTotally(compare, a[j], a[p]);
        assert ComparesTransitively(compare, a[i], a[p], a[j]);
      } else if i == p < j {
        assert ComparesTotally(compare, a[j], a[p]);
      }
    }
  }

  lemma SortedByTail(a: seq<int>, compare: (int, int) -> int)
    requires |a| > 0 && SortedBy(a, 0, |a|, compare)
    ensures SortedBy(a[1..], 0, |a| - 1, compare)
  {
    forall i, j | 0 <= i < j < |a| - 1 ensures compare(a[1..][i], a[1..][j]) <= 0 {
      assert a[1..][i] == a[i + 1] && a[1..][j] == a[j + 1];
    }
  }
  lemma MultisetTail(a: seq<int>, b: seq<int>)
    requires |a| > 0 && |b| > 0 && a[0] == b[0] && multiset(a) == multiset(b)
    ensures multiset(a[1..]) == multiset(b[1..])
  {
    assert a == [a[0]] + a[1..] && b == [b[0]] + b[1..];
    assert multiset(a) == multiset([a[0]]) + multiset(a[1..]);
    assert multiset(b) == multiset([b[0]]) + multiset(b[1..]);
    assert multiset(a[1..]) == multiset(a) - multiset([a[0]]);
    assert multiset(b[1..]) == multiset(b) - multiset([b[0]]);
  }
  /** The head of a sorted sequence comes before each of its elements. */
  lemma SortedByHead(a: seq<int>, x: int, compare: (int, int) -> int)
    requires |a| > 0 && SortedBy(a, 0, |a|, compare) && x in a
    ensures x == a[0] || compare(a[0], x) <= 0
  {
    var i :| 0 <= i < |a| && a[i] == x;
    if i > 0 {
      assert compare(a[0], a[i]) <= 0;
    }
  }

  /** Two sequences sorted by an antisymmetric comparison that hold the
      same elements are equal. */
  lemma {:induction false} SortedByUnique(a: seq<int>, b: seq<int>, compare: (int, int) -> int)
    requires Antisymmetric(compare)
    requires SortedBy(a, 0, |a|, compare) && SortedBy(b, 0, |b|, compare)
    requires multiset(a) == multiset(b)
    ensures a == b
  {
    assert |a| == |multiset(a)| == |multiset(b)| == |b|;
    if |a| > 0 {
      assert a[0] in multiset(b) && b[0] in multiset(a);
      SortedByHead(b, a[0], compare);
      SortedByHead(a, b[0], compare);
      assert ComparesAntisymmetrically(compare, a[0], b[0]);
      MultisetTail(a, b);
      SortedByTail(a, compare);
      SortedByTail(b, compare);
      SortedByUnique(a[1..], b[1..], compare);
      assert a == [a[0]] + a[1..] && b == [b[0]] + b[1..];
    }
  }

  // ---------------------------------------------------------------------
  // The loop of the Lomuto partition
  // ---------------------------------------------------------------------

  /** While `j` scans [inicio, fim): the cells [inicio, i] go left of the
      pivot `a[fim]`, the cells (i, j) go right of it. */
  ghost predicate LomutoInvariant(a: seq<int>, inicio: int, fim: int, i: int, j: int, pivo: int) {
    && 0 <= inicio && inicio - 1 <= i < j <= fim < |a| && a[fim] == pivo
    && (forall k :: inicio <= k <= i ==> a[k] <= pivo)
    && (forall k :: i < k < j ==> a[k] > pivo)
  }

  lemma LomutoSkip(a: seq<int>, inicio: int, fim: int, i: int, j: int, pivo: int)
    requires LomutoInvariant(a, inicio, fim, i, j, pivo) && j < fim && a[j] > pivo
    ensures LomutoInvariant(a, inicio, fim, i, j + 1, pivo)
  {
  }

  lemma LomutoSwap(a: seq<int>, inicio: int, fim: int, i: int, j: int, pivo: int)
    requires LomutoInvariant(a, inicio, fim, i, j, pivo) && j < fim && a[j] <= pivo
    ensures LomutoInvariant(Swapped(a, i + 1, j), inicio, fim, i + 1, j + 1, pivo)
  {
  }

  /** The closing swap puts the pivot between the two sides. */
  lemma LomutoFinish(a: seq<int>, inicio: int, fim: int, i: int, pivo: int)
    requires LomutoInvariant(a, inicio, fim, i, fim, pivo)
    ensures var b := Swapped(a, i + 1, fim);
      b[i + 1] == pivo && Partitioned(b, inicio, i + 1, fim)
  {
  }

  /** The whole state of the scan: the Lomuto invariant, and `a` a
      permutation of the input `a0` within [inicio, fim]. */
  ghost predicate Scan(a0: seq<int>, a: seq<int>, inicio: int, fim: int, i: int, j: int, pivo: int) {
    LomutoInvariant(a, inicio, fim, i, j, pivo) && PermutedWithin(a0, a, inicio, fim + 1)
  }

  lemma ScanStart(a0: seq<int>, inicio: int, fim: int)
    requires 0 <= inicio <= fim < |a0|
    ensures Scan(a0, a0, inicio, fim, inicio - 1, inicio, a0[fim])
  {
  }

  /** A cell that goes left is swapped to `i + 1`. */
  lemma ScanSwap(a0: seq<int>, a: seq<int>, b: seq<int>, inicio: int, fim: int, i: int, j: int, pivo: int)
    requires Scan(a0, a, inicio, fim, i, j, pivo) && j < fim && a[j] <= pivo
    requires b == Swapped(a, i + 1, j)
    ensures Scan(a0, b, inicio, fim, i + 1, j + 1, pivo)
  {
    LomutoSwap(a, inicio, fim, i, j, pivo);
    PermutedWithinSwap(a0, a, inicio, fim + 1, i + 1, j);
  }

  /** A cell that goes right stays where it is. */
  lemma ScanSkip(a0: seq<int>, a: seq<int>, inicio: int, fim: int, i: int, j: int, pivo: int)
    requires Scan(a0, a, inicio, fim, i, j, pivo) && j < fim && a[j] > pivo
    ensures Scan(a0, a, inicio, fim, i, j + 1, pivo)
  {
    LomutoSkip(a, inicio, fim, i, j, pivo);
  }

  lemma ScanFinish(a0: seq<int>, a: seq<int>, b: seq<int>, inicio: int, fim: int, i: int, pivo: int)
    requires Scan(a0, a, inicio, fim, i, fim, pivo) && pivo == a0[fim]
    requires b == Swapped(a, i + 1, fim)
    ensures && inicio <= i + 1 <= fim && b[i + 1] == a0[fim]
      && PermutedWithin(a0, b, inicio, fim + 1) && Partitioned(b, inicio, i + 1, fim)
  {
    LomutoFinish(a, inicio, fim, i, pivo);
    PermutedWithinSwap(a0, a, inicio, fim + 1, i + 1, fim);
  }

  ghost predicate LomutoByInvariant(a: seq<int>, inicio: int, fim: int, i: int, j: int, pivo: int,
                                    compare: (int, int) -> int) {
    && 0 <= inicio && inicio - 1 <= i < j <= fim < |a| && a[fim] == pivo
    && (forall k :: inicio <= k <= i ==> compare(a[k], pivo) <= 0)
    && (forall k :: i < k < j ==> compare(a[k], pivo) > 0)
  }

  lemma LomutoBySkip(a: seq<int>, inicio: int, fim: int, i: int, j: int, pivo: int, compare: (int, int) -> int)
    requires LomutoByInvariant(a, inicio, fim, i, j, pivo, compare) && j < fim && compare(a[j], pivo) > 0
    ensures LomutoByInvariant(a, inicio, fim, i, j + 1, pivo, compare)
  {
  }

  lemma LomutoBySwap(a: seq<int>, inicio: int, fim: int, i: int, j: int, pivo: int, compare: (int, int) -> int)
    requires LomutoByInvariant(a, inicio, fim, i, j, pivo, compare) && j < fim && compare(a[j], pivo) <= 0
    ensures LomutoByInvariant(Swapped(a, i + 1, j), inicio, fim, i + 1, j + 1, pivo, compare)
  {
  }

  lemma LomutoByFinish(a: seq<int>, inicio: int, fim: int, i: int, pivo: int, compare: (int, int) -> int)
    requires LomutoByInvariant(a, inicio, fim, i, fim, pivo, compare)
    ensures var b := Swapped(a, i + 1, fim);
      b[i + 1] == pivo && PartitionedBy(b, inicio, i + 1, fim, compare)
  {
  }

  /** The whole state of the scan: the Lomuto invariant, and `a` a
      permutation of the input `a0` within [inicio, fim]. */
  ghost predicate ScanBy(a0: seq<int>, a: seq<int>, inicio: int, fim: int, i: int, j: int, pivo: int, compare: (int, int) -> int) {
    LomutoByInvariant(a, inicio, fim, i, j, pivo, compare) && PermutedWithin(a0, a, inicio, fim + 1)
  }

  /** The test of the scan: `compare(x, pivo) <= 0` sends `x` left. */
  function GoesLeft(compare: (int, int) -> int, x: int, pivo: int): bool {
    compare(x, pivo) <= 0
  }

  lemma ScanByStart(a0: seq<int>, inicio: int, fim: int, compare: (int, int) -> int)
    requires 0 <= inicio <= fim < |a0|
    ensures ScanBy(a0, a0, inicio, fim, inicio - 1, inicio, a0[fim], compare)
  {
  }

  /** A cell that goes left is swapped to `i + 1`. */
  lemma ScanBySwap(a0: seq<int>, a: seq<int>, b: seq<int>, inicio: int, fim: int, i: int, j: int, pivo: int, compare: (int, int) -> int)
    requires ScanBy(a0, a, inicio, fim, i, j, pivo, compare) && j < fim && GoesLeft(compare, a[j], pivo)
    requires b == Swapped(a, i + 1, j)
    ensures ScanBy(a0, b, inicio, fim, i + 1, j + 1, pivo, compare)
  {
    LomutoBySwap(a, inicio, fim, i, j, pivo, compare);
    PermutedWithinSwap(a0, a, inicio, fim + 1, i + 1, j);
  }

  /** A cell that goes right stays where it is. */
  lemma ScanBySkip(a0: seq<int>, a: seq<int>, inicio: int, fim: int, i: int, j: int, pivo: int, compare: (int, int) -> int)
    requires ScanBy(a0, a, inicio, fim, i, j, pivo, compare) && j < fim && !GoesLeft(compare, a[j], pivo)
    ensures ScanBy(a0, a, inicio, fim, i, j + 1, pivo, compare)
  {
    LomutoBySkip(a, inicio, fim, i, j, pivo, compare);
  }

  lemma ScanByFinish(a0: seq<int>, a: seq<int>, b: seq<int>, inicio: int, fim: int, i: int, pivo: int, compare: (int, int) -> int)
    requires ScanBy(a0, a, inicio, fim, i, fim, pivo, compare) && pivo == a0[fim]
    requires b == Swapped(a, i + 1, fim)
    ensures && inicio <= i + 1 <= fim && b[i + 1] == a0[fim]
      && PermutedWithin(a0, b, inicio, fim + 1) && PartitionedBy(b, inicio, i + 1, fim, compare)
  {
    LomutoByFinish(a, inicio, fim, i, pivo, compare);
    PermutedWithinSwap(a0, a, inicio, fim + 1, i + 1, fim);
  }

  // ---------------------------------------------------------------------
  // trocar
  // ---------------------------------------------------------------------

  /** `trocar`: swaps `arr[i]` and `arr[j]`; fails (throws) when either index
      is outside [0, arr.Length), changing nothing. */
  method Trocar(arr: array<int>, i: int, j: int) returns (o: Outcome)
    modifies arr
    ensures o.Pass? <==> 0 <= i < arr.Length && 0 <= j < arr.Length
    ensures o.Pass? ==> arr[..] == Swapped(old(arr[..]), i, j)
    ensures o.Fail? ==> arr[..] == old(arr[..])
  {
    if i < 0 || i >= arr.Length || j < 0 || j >= arr.Length {
      return Fail("Índices inválidos para troca");
    }
    var temp := arr[i];
    arr[i] := arr[j];
    arr[j] := temp;
    o := Pass;
  }

  // ---------------------------------------------------------------------
  // Natural order
  // ---------------------------------------------------------------------

  /** The `for` loop of `particionar`: `j` runs over [inicio, fim)
      and every cell that goes left of the pivot is swapped to position
      `i + 1`. Returns the final `i`. */
  method Varrer(arr: array<int>, inicio: int, fim: int, pivo: int) returns (i: int)
    requires 0 <= inicio && fim < arr.Length && (inicio <= fim ==> arr[fim] == pivo)
    modifies arr
    ensures inicio <= fim ==> Scan(old(arr[..]), arr[..], inicio, fim, i, fim, pivo)
    ensures inicio > fim ==> i == inicio - 1 && arr[..] == old(arr[..])
  {
    i := inicio - 1;
    var j := inicio;
    if inicio <= fim {
      ScanStart(arr[..], inicio, fim);
    }
    while j < fim
      invariant inicio - 1 <= i < j
      invariant inicio > fim ==> i == inicio - 1 && j == inicio && arr[..] == old(arr[..])
      invariant inicio <= fim ==> Scan(old(arr[..]), arr[..], inicio, fim, i, j, pivo)
    {
      if arr[j] <= pivo {
        i := i + 1;
        ghost var before := arr[..];
        var _ := Trocar(arr, i, j);
        ScanSwap(old(arr[..]), before, arr[..], inicio, fim, i - 1, j, pivo);
      } else {
        ScanSkip(old(arr[..]), arr[..], inicio, fim, i, j, pivo);
      }
      j := j + 1;
    }
  }

  /** `particionar`: Lomuto partition of [inicio, fim] around the pivot
      `arr[fim]`. Fails when `fim >= arr.Length` or `inicio < 0`. Called with
      `inicio > fim` it runs no comparison and only tries to swap
      `arr[inicio]` with `arr[fim]`. */
  method Particionar(arr: array<int>, inicio: int, fim: int) returns (r: Result<int>)
    modifies arr
    ensures r.Err? <==> fim >= arr.Length || inicio < 0 || (fim < inicio && (fim < 0 || arr.Length <= inicio))
    ensures r.Err? ==> arr[..] == old(arr[..])
    ensures r.Ok? && inicio <= fim ==>
      && inicio <= r.value <= fim
      && arr[r.value] == old(arr[fim])
      && PermutedWithin(old(arr[..]), arr[..], inicio, fim + 1)
      && Partitioned(arr[..], inicio, r.value, fim)
    ensures r.Ok? && fim < inicio ==>
      r.value == inicio && arr[..] == Swapped(old(arr[..]), inicio, fim)
  {
    if fim >= arr.Length || inicio < 0 {
      return Err("Índices inválidos para particionamento");
    }
    // When fim < 0 the pivot is never compared: then inicio > fim and the
    // loop does not run.
    var pivo := if fim >= 0 then arr[fim] else 0;
    var i := Varrer(arr, inicio, fim, pivo);
    ghost var scanned := arr[..];
    var o := Trocar(arr, i + 1, fim);
    if o.Fail? {
      return Err(o.message);
    }
    if inicio <= fim {
      ScanFinish(old(arr[..]), scanned, arr[..], inicio, fim, i, pivo);
    }
    r := Ok(i + 1);
  }

  /** `quickSort(arr, inicio, fim)`: sorts the cells [inicio, fim] in place
      and returns the same array. Fails, changing nothing, when a partition
      is needed (`inicio < fim`) but the indices are out of range. */
  method QuickSort(arr: array<int>, inicio: int, fim: int) returns (r: Result<array<int>>)
    modifies arr
    decreases fim - inicio
    ensures r.Err? <==> inicio < fim && (fim >= arr.Length || inicio < 0)
    ensures r.Ok? ==> r.value == arr
    ensures r.Err? || inicio >= fim ==> arr[..] == old(arr[..])
    ensures 0 <= inicio <= fim + 1 <= arr.Length ==>
      PermutedWithin(old(arr[..]), arr[..], inicio, fim + 1) && SortedBetween(arr[..], inicio, fim + 1)
  {
    if inicio < fim {
      var p := Particionar(arr, inicio, fim);
      if p.Err? {
        return Err(p.message);
      }
      var indicePivo := p.value;
      ghost var a1 := arr[..];
      var _ := QuickSort(arr, inicio, indicePivo - 1);
      ghost var a2 := arr[..];
      var _ := QuickSort(arr, indicePivo + 1, fim);
      ghost var a3 := arr[..];
      PostPartition(old(arr[..]), a1, a2, a3, inicio, indicePivo, fim);
    } else if 0 <= inicio <= fim + 1 <= arr.Length {
      PermutedWithinRefl(arr[..], inicio, fim + 1);
    }
    r := Ok(arr);
  }

  /** Sorting [lo, p) keeps the partition around `p`. */
  lemma PartitionedAfterLeft(a1: seq<int>, a2: seq<int>, lo: int, p: int, hi: int)
    requires 0 <= lo <= p <= hi < |a1|
    requires PermutedWithin(a1, a2, lo, p) && Partitioned(a1, lo, p, hi)
    ensures Partitioned(a2, lo, p, hi)
  {
    var pivot := a1[p];
    forall k | p <= k <= hi ensures a2[k] == a1[k] { PermutedWithinOutside(a1, a2, lo, p, k); }
    PermutedWithinKeeps(a1, a2, lo, p, x => x <= pivot);
  }

  /** Sorting (p, hi] keeps the partition around `p` and leaves [lo, p] alone. */
  lemma PartitionedAfterRight(a2: seq<int>, a3: seq<int>, lo: int, p: int, hi: int)
    requires 0 <= lo <= p <= hi < |a2|
    requires PermutedWithin(a2, a3, p + 1, hi + 1) && Partitioned(a2, lo, p, hi)
    requires SortedBetween(a2, lo, p)
    ensures Partitioned(a3, lo, p, hi) && SortedBetween(a3, lo, p)
  {
    var pivot := a2[p];
    forall k | lo <= k <= p ensures a3[k] == a2[k] { PermutedWithinOutside(a2, a3, p + 1, hi + 1, k); }
    PermutedWithinKeeps(a2, a3, p + 1, hi + 1, x => x > pivot);
  }

  /** The two sorts after a partition each permute their side, so together
      they permute the whole slice. */
  lemma PermutedAfterSorts(a0: seq<int>, a1: seq<int>, a2: seq<int>, a3: seq<int>, lo: int, p: int, hi: int)
    requires 0 <= lo <= p <= hi < |a0|
    requires PermutedWithin(a0, a1, lo, hi + 1)
    requires PermutedWithin(a1, a2, lo, p)
    requires PermutedWithin(a2, a3, p + 1, hi + 1)
    ensures PermutedWithin(a0, a3, lo, hi + 1)
  {
    PermutedWithinWiden(a1, a2, lo, hi + 1, lo, p);
    PermutedWithinWiden(a2, a3, lo, hi + 1, p + 1, hi + 1);
    PermutedWithinTrans(a0, a1, a2, lo, hi + 1);
    PermutedWithinTrans(a0, a2, a3, lo, hi + 1);
  }

  /** The argument that partitioning and then sorting both sides sorts the
      whole slice. */
  lemma PostPartition(a0: seq<int>, a1: seq<int>, a2: seq<int>, a3: seq<int>, lo: int, p: int, hi: int)
    requires 0 <= lo <= p <= hi < |a0|
    requires PermutedWithin(a0, a1, lo, hi + 1) && Partitioned(a1, lo, p, hi)
    requires PermutedWithin(a1, a2, lo, p) && SortedBetween(a2, lo, p)
    requires PermutedWithin(a2, a3, p + 1, hi + 1) && SortedBetween(a3, p + 1, hi + 1)
    ensures PermutedWithin(a0, a3, lo, hi + 1) && SortedBetween(a3, lo, hi + 1)
  {
    PartitionedAfterLeft(a1, a2, lo, p, hi);
    PartitionedAfterRight(a2, a3, lo, p, hi);
    SortedJoin(a3, lo, p, hi + 1);
    PermutedAfterSorts(a0, a1, a2, a3, lo, p, hi);
  }

  // ---------------------------------------------------------------------
  // Caller-supplied comparison
  // ---------------------------------------------------------------------

  /** The `for` loop of `particionarComComparacao`: `j` runs over [inicio, fim)
      and every cell that goes left of the pivot is swapped to position
      `i + 1`. Returns the final `i`. */
  method VarrerBy(arr: array<int>, inicio: int, fim: int, pivo: int, compare: (int, int) -> int) returns (i: int)
    requires 0 <= inicio && fim < arr.Length && (inicio <= fim ==> arr[fim] == pivo)
    modifies arr
    ensures inicio <= fim ==> ScanBy(old(arr[..]), arr[..], inicio, fim, i, fim, pivo, compare)
    ensures inicio > fim ==> i == inicio - 1 && arr[..] == old(arr[..])
  {
    i := inicio - 1;
    var j := inicio;
    if inicio <= fim {
      ScanByStart(arr[..], inicio, fim, compare);
    }
    while j < fim
      invariant inicio - 1 <= i < j
      invariant inicio > fim ==> i == inicio - 1 && j == inicio && arr[..] == old(arr[..])
      invariant inicio <= fim ==> ScanBy(old(arr[..]), arr[..], inicio, fim, i, j, pivo, compare)
    {
      if GoesLeft(compare, arr[j], pivo) {
        i := i + 1;
        ghost var before := arr[..];
        var _ := Trocar(arr, i, j);
        ScanBySwap(old(arr[..]), before, arr[..], inicio, fim, i - 1, j, pivo, compare);
      } else {
        ScanBySkip(old(arr[..]), arr[..], inicio, fim, i, j, pivo, compare);
      }
      j := j + 1;
    }
  }

  /** `particionarComComparacao`: as `Particionar`, but a cell goes left of
      the pivot when `compare(cell, pivot) <= 0`. */
  method ParticionarComComparacao(arr: array<int>, inicio: int, fim: int, compare: (int, int) -> int)
    returns (r: Result<int>)
    modifies arr
    ensures r.Err? <==> fim >= arr.Length || inicio < 0 || (fim < inicio && (fim < 0 || arr.Length <= inicio))
    ensures r.Err? ==> arr[..] == old(arr[..])
    ensures r.Ok? && inicio <= fim ==>
      && inicio <= r.value <= fim
      && arr[r.value] == old(arr[fim])
      && PermutedWithin(old(arr[..]), arr[..], inicio, fim + 1)
      && PartitionedBy(arr[..], inicio, r.value, fim, compare)
    ensures r.Ok? && fim < inicio ==>
      r.value == inicio && arr[..] == Swapped(old(arr[..]), inicio, fim)
  {
    if fim >= arr.Length || inicio < 0 {
      return Err("Índices inválidos para particionamento");
    }
    // When fim < 0 the pivot is never compared: then inicio > fim and the
    // loop does not run.
    var pivo := if fim >= 0 then arr[fim] else 0;
    var i := VarrerBy(arr, inicio, fim, pivo, compare);
    ghost var scanned := arr[..];
    var o := Trocar(arr, i + 1, fim);
    if o.Fail? {
      return Err(o.message);
    }
    if inicio <= fim {
      ScanByFinish(old(arr[..]), scanned, arr[..], inicio, fim, i, pivo, compare);
    }
    r := Ok(i + 1);
  }

  /** `quickSortComComparacao` with an explicit comparison function. */
  method QuickSortComComparacao(arr: array<int>, compare: (int, int) -> int, inicio: int, fim: int)
    returns (r: Result<array<int>>)
    modifies arr
    decreases fim - inicio
    ensures r.Err? <==> inicio < fim && (fim >= arr.Length || inicio < 0)
    ensures r.Ok? ==> r.value == arr
    ensures r.Err? || inicio >= fim ==> arr[..] == old(arr[..])
    ensures 0 <= inicio <= fim + 1 <= arr.Length ==> PermutedWithin(old(arr[..]), arr[..], inicio, fim + 1)
    ensures 0 <= inicio <= fim + 1 <= arr.Length && TotalPreorder(compare) ==> SortedBy(arr[..], inicio, fim + 1, compare)
  {
    if inicio < fim {
      var p := ParticionarComComparacao(arr, inicio, fim, compare);
      if p.Err? {
        return Err(p.message);
      }
      var indicePivo := p.value;
      ghost var a1 := arr[..];
      var _ := QuickSortComComparacao(arr, compare, inicio, indicePivo - 1);
      ghost var a2 := arr[..];
      var _ := QuickSortComComparacao(arr, compare, indicePivo + 1, fim);
      ghost var a3 := arr[..];
      PermutedAfterSorts(old(arr[..]), a1, a2, a3, inicio, indicePivo, fim);
      if TotalPreorder(compare) {
        PostPartitionBy(a1, a2, a3, inicio, indicePivo, fim, compare);
      }
    } else if 0 <= inicio <= fim + 1 <= arr.Length {
      PermutedWithinRefl(arr[..], inicio, fim + 1);
    }
    r := Ok(arr);
  }

  lemma PartitionedByAfterLeft(a1: seq<int>, a2: seq<int>, lo: int, p: int, hi: int, compare: (int, int) -> int)
    requires 0 <= lo <= p <= hi < |a1|
    requires PermutedWithin(a1, a2, lo, p) && PartitionedBy(a1, lo, p, hi, compare)
    ensures PartitionedBy(a2, lo, p, hi, compare)
  {
    var pivot := a1[p];
    forall k | p <= k <= hi ensures a2[k] == a1[k] { PermutedWithinOutside(a1, a2, lo, p, k); }
    PermutedWithinKeeps(a1, a2, lo, p, x => compare(x, pivot) <= 0);
  }

  lemma PartitionedByAfterRight(a2: seq<int>, a3: seq<int>, lo: int, p: int, hi: int, compare: (int, int) -> int)
    requires 0 <= lo <= p <= hi < |a2|
    requires PermutedWithin(a2, a3, p + 1, hi + 1) && PartitionedBy(a2, lo, p, hi, compare)
    requires SortedBy(a2, lo, p, compare)
    ensures PartitionedBy(a3, lo, p, hi, compare) && SortedBy(a3, lo, p, compare)
  {
    var pivot := a2[p];
    forall k | lo <= k <= p ensures a3[k] == a2[k] { PermutedWithinOutside(a2, a3, p + 1, hi + 1, k); }
    PermutedWithinKeeps(a2, a3, p + 1, hi + 1, x => compare(x, pivot) > 0);
  }

  /** With a total preorder, partitioning and then sorting both sides sorts
      the whole slice. */
  lemma PostPartitionBy(a1: seq<int>, a2: seq<int>, a3: seq<int>, lo: int, p: int, hi: int,
                        compare: (int, int) -> int)
    requires TotalPreorder(compare)
    requires 0 <= lo <= p <= hi < |a1| && PartitionedBy(a1, lo, p, hi, compare)
    requires PermutedWithin(a1, a2, lo, p) && SortedBy(a2, lo, p, compare)
    requires PermutedWithin(a2, a3, p + 1, hi + 1) && SortedBy(a3, p + 1, hi + 1, compare)
    ensures SortedBy(a3, lo, hi + 1, compare)
  {
    PartitionedByAfterLeft(a1, a2, lo, p, hi, compare);
    PartitionedByAfterRight(a2, a3, lo, p, hi, compare);
    SortedByJoin(a3, lo, p, hi + 1, compare);
  }

  // ---------------------------------------------------------------------
  // The examples
  // ---------------------------------------------------------------------

  /** The comparison `(a, b) => a - b`, the natural ascending order. */
  function Crescente(a: int, b: int): int { a - b }

  /** The comparison `(a, b) => b - a` of the example, descending order. */
  function Decrescente(a: int, b: int): int { b - a }

  lemma CrescenteAntisymmetric()
    ensures Antisymmetric(Crescente)
  {
  }

  lemma DecrescenteAntisymmetric()
    ensures Antisymmetric(Decrescente)
  {
  }

  lemma DecrescenteIsTotalPreorder()
    ensures TotalPreorder(Decrescente)
  {
  }

  lemma AscendingIsSortedByCrescente(s: seq<int>)
    requires SortedBetween(s, 0, |s|)
    ensures SortedBy(s, 0, |s|, Crescente)
  {
  }

  /** Ascending order pins a sequence down by its elements. */
  lemma SortedAscendingUnique(s: seq<int>, t: seq<int>)
    requires SortedBetween(s, 0, |s|) && SortedBetween(t, 0, |t|) && multiset(s) == multiset(t)
    ensures s == t
  {
    AscendingIsSortedByCrescente(s);
    AscendingIsSortedByCrescente(t);
    CrescenteAntisymmetric();
    SortedByUnique(s, t, Crescente);
  }

  /** So does the descending order of `Decrescente`. */
  lemma SortedDescendingUnique(s: seq<int>, t: seq<int>)
    requires SortedBy(s, 0, |s|, Decrescente) && SortedBy(t, 0, |t|, Decrescente) && multiset(s) == multiset(t)
    ensures s == t
  {
    DecrescenteAntisymmetric();
    SortedByUnique(s, t, Decrescente);
  }

  lemma ExemploSortedAscending()
    ensures var t := [11, 12, 22, 25, 34, 64, 90]; SortedBetween(t, 0, |t|)
  {
  }

  lemma ExemploElementsAscending()
    ensures multiset([11, 12, 22, 25, 34, 64, 90]) == multiset([64, 34, 25, 12, 22, 11, 90])
  {
  }

  lemma ExemploSortedDescending()
    ensures var t := [90, 64, 34, 25, 22, 12, 11]; SortedBy(t, 0, |t|, Decrescente)
  {
  }

  lemma ExemploElementsDescending()
    ensures multiset([90, 64, 34, 25, 22, 12, 11]) == multiset([64, 34, 25, 12, 22, 11, 90])
  {
  }

  /** Sorting [64, 34, 25, 12, 22, 11, 90] ascending with `quickSort`. */
  method ExemploQuickSort() returns (asc: seq<int>)
    ensures asc == [11, 12, 22, 25, 34, 64, 90]
  {
    var a := new int[7] [64, 34, 25, 12, 22, 11, 90];
    assert a[..] == [64, 34, 25, 12, 22, 11, 90];
    var _ := QuickSort(a, 0, a.Length - 1);
    asc := a[..];
    PermutedWithinElements([64, 34, 25, 12, 22, 11, 90], asc, 0, 7);
    ExemploElementsAscending();
    ExemploSortedAscending();
    SortedAscendingUnique(asc, [11, 12, 22, 25, 34, 64, 90]);
  }

  /** Sorting the same array descending with `quickSortComComparacao` and
      the comparison `(a, b) => b - a`. */
  method ExemploQuickSortDecrescente() returns (desc: seq<int>)
    ensures desc == [90, 64, 34, 25, 22, 12, 11]
  {
    var d := new int[7] [64, 34, 25, 12, 22, 11, 90];
    assert d[..] == [64, 34, 25, 12, 22, 11, 90];
    DecrescenteIsTotalPreorder();
    var _ := QuickSortComComparacao(d, Decrescente, 0, d.Length - 1);
    desc := d[..];
    PermutedWithinElements([64, 34, 25, 12, 22, 11, 90], desc, 0, 7);
    ExemploElementsDescending();
    ExemploSortedDescending();
    SortedDescendingUnique(desc, [90, 64, 34, 25, 22, 12, 11]);
  }
}
