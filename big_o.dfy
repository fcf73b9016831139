/** The algorithm catalogue of the complexity tutorial: binary search, the
    linear and quadratic examples, the two Fibonacci functions, bubble sort,
    merge sort, and the slow and fast versions of the exercises. Arrays
    passed in are values (`seq<int>`); the functions that build an array
    return a new one. Every `array[i] ?? 0` of the code reads an index
    inside the array, so the `?? 0` never applies. */
module BigO {
  import Ordenacao

  // ---------------------------------------------------------------------
  // buscaBinaria
  // ---------------------------------------------------------------------

  ghost predicate Sorted(s: seq<int>) {
    Ordenacao.SortedBetween(s, 0, |s|)
  }

  /** `buscaBinaria`: halves [esquerda, direita] until the middle cell holds
      the target. A non-negative answer is always a position of the target;
      on a sorted array, -1 means the target is absent. */
  method BuscaBinaria(arr: seq<int>, target: int) returns (r: int)
    ensures -1 <= r < |arr|
    ensures r >= 0 ==> arr[r] == target
    ensures Sorted(arr) && r == -1 ==> target !in arr
  {
    var esquerda := 0;
    var direita := |arr| - 1;
    while esquerda <= direita
      invariant 0 <= esquerda <= direita + 1 <= |arr|
      invariant Sorted(arr) ==> forall k :: 0 <= k < esquerda ==> arr[k] < target
      invariant Sorted(arr) ==> forall k :: direita < k < |arr| ==> arr[k] > target
      decreases direita - esquerda
    {
      var meio := (esquerda + direita) / 2;
      if arr[meio] == target {
        return meio;
      } else if arr[meio] < target {
        esquerda := meio + 1;
      } else {
        direita := meio - 1;
      }
    }
    r := -1;
  }

  // ---------------------------------------------------------------------
  // exemploOn and espacoLinear
  // ---------------------------------------------------------------------

  /** The sum of the cells of `s`. */
  function Sum(s: seq<int>): int {
    if s == [] then 0 else Sum(s[..|s| - 1]) + s[|s| - 1]
  }

  /** `exemploOn`: one pass adding every cell. */
  method ExemploOn(arr: seq<int>) returns (soma: int)
    ensures soma == Sum(arr)
  {
    soma := 0;
    for i := 0 to |arr|
      invariant soma == Sum(arr[..i])
    {
      assert arr[..i + 1][..i] == arr[..i];
      soma := soma + arr[i];
    }
    assert arr[..|arr|] == arr;
  }

  /** `espacoLinear`: a new array with every cell doubled. */
  method EspacoLinear(arr: seq<int>) returns (novoArray: seq<int>)
    ensures |novoArray| == |arr|
    ensures forall i :: 0 <= i < |arr| ==> novoArray[i] == arr[i] * 2
  {
    novoArray := [];
    for i := 0 to |arr|
      invariant |novoArray| == i
      invariant forall k :: 0 <= k < i ==> novoArray[k] == arr[k] * 2
    {
      novoArray := novoArray + [arr[i] * 2];
    }
  }

  // ---------------------------------------------------------------------
  // Fibonacci
  // ---------------------------------------------------------------------

  /** `fibonacciIneficiente`: the doubly recursive definition; any `n <= 1`
      is its own value. */
  function FibonacciIneficiente(n: int): int
    decreases if n < 0 then 0 else n
  {
    if n <= 1 then n else FibonacciIneficiente(n - 1) + FibonacciIneficiente(n - 2)
  }

  /** Every entry of the memo holds the Fibonacci number of its key. */
  ghost predicate MemoCorreto(memo: map<int, int>) {
    forall m :: m in memo ==> memo[m] == FibonacciIneficiente(m)
  }

  /** `fibonacciOtimizado`: the same recursion with a memo of the values
      already computed. The `Map` the calls share is passed in and handed
      back; a top-level call starts from the default empty map. */
  method FibonacciOtimizado(n: int, memo: map<int, int>) returns (r: int, memo': map<int, int>)
    requires MemoCorreto(memo)
    ensures r == FibonacciIneficiente(n)
    ensures MemoCorreto(memo') && memo.Keys <= memo'.Keys
    decreases if n < 0 then 0 else n
  {
    if n <= 1 {
      return n, memo;
    }
    if n in memo {
      return memo[n], memo;
    }
    var a, memo1 := FibonacciOtimizado(n - 1, memo);
    var b, memo2 := FibonacciOtimizado(n - 2, memo1);
    r := a + b;
    memo' := memo2[n := r];
  }

  // ---------------------------------------------------------------------
  // exemploOn2
  // ---------------------------------------------------------------------

  /** Where the pair (i, k) of row `i` lands inside that row: the diagonal
      cell (i, i) is skipped. */
  function Coluna(i: int, k: int): int {
    if k < i then k else k - 1
  }

  /** The position column `c` of row `i` pairs with: `Coluna` undone. */
  function Outra(i: int, c: int): int {
    if c < i then c else c + 1
  }

  /** The pairs row `i` of `exemploOn2` emits for the columns below `j`. */
  ghost function Linha(a: seq<int>, i: int, j: int): (r: seq<seq<int>>)
    requires 0 <= i < |a| && 0 <= j <= |a|
    ensures |r| == if i < j then j - 1 else j
  {
    var n := if i < j then j - 1 else j;
    seq(n, c requires 0 <= c < n => [a[i], a[Outra(i, c)]])
  }

  /** The pairs the rows below `i` emit, row after row. */
  ghost function Pares(a: seq<int>, i: int): seq<seq<int>>
    requires 0 <= i <= |a|
  {
    if i == 0 then [] else Pares(a, i - 1) + Linha(a, i - 1, |a|)
  }

  /** Column `j` of row `i` adds the pair (i, j) unless it is the diagonal. */
  lemma LinhaPasso(a: seq<int>, i: int, j: int)
    requires 0 <= i < |a| && 0 <= j < |a|
    ensures Linha(a, i, j + 1) == Linha(a, i, j) + (if i != j then [[a[i], a[j]]] else [])
  {
    var novo := Linha(a, i, j) + (if i != j then [[a[i], a[j]]] else []);
    assert forall c :: 0 <= c < |novo| ==> Linha(a, i, j + 1)[c] == novo[c];
  }

  /** `i` rows of `w` pairs each, counted by repeated addition. */
  function Deslocamento(i: nat, w: int): (r: int)
    ensures w >= 0 ==> r >= 0
  {
    if i == 0 then 0 else Deslocamento(i - 1, w) + w
  }

  lemma {:induction false} DeslocamentoMul(i: nat, w: int)
    ensures Deslocamento(i, w) == i * w
  {
    if i > 0 {
      DeslocamentoMul(i - 1, w);
    }
  }

  lemma {:induction false} DeslocamentoMonotone(i: nat, j: nat, w: int)
    requires i <= j && w >= 0
    ensures Deslocamento(i, w) <= Deslocamento(j, w)
    decreases j
  {
    if i < j {
      DeslocamentoMonotone(i, j - 1, w);
    }
  }

  lemma {:induction false} ParesLength(a: seq<int>, i: int)
    requires 0 <= i <= |a|
    ensures |Pares(a, i)| == Deslocamento(i, |a| - 1)
  {
    if i > 0 {
      assert Pares(a, i) == Pares(a, i - 1) + Linha(a, i - 1, |a|);
      ParesLength(a, i - 1);
    }
  }

  /** Row `i` sits at offset `Deslocamento(i, |a| - 1)` of every longer list
      of rows. */
  lemma {:induction false} ParesAt(a: seq<int>, i: int, m: int, c: int)
    requires 0 <= i < m <= |a| && 0 <= c < |a| - 1
    ensures c < |Linha(a, i, |a|)| && Deslocamento(i, |a| - 1) + c < |Pares(a, m)|
    ensures Pares(a, m)[Deslocamento(i, |a| - 1) + c] == Linha(a, i, |a|)[c]
    decreases m
  {
    var w := |a| - 1;
    ParesLength(a, m - 1);
    if i < m - 1 {
      DeslocamentoMonotone(i + 1, m - 1, w);
      ParesAt(a, i, m - 1, c);
    }
    EmConcatenacao(Pares(a, m - 1), Linha(a, m - 1, |a|), Deslocamento(i, w) + c);
  }

  /** Indexing into a concatenation. */
  lemma EmConcatenacao(p: seq<seq<int>>, q: seq<seq<int>>, k: int)
    requires 0 <= k < |p| + |q|
    ensures (p + q)[k] == if k < |p| then p[k] else q[k - |p|]
  {
  }

  /** The pair (i, k) sits at `i * (n - 1) + Coluna(i, k)` of all the rows. */
  lemma ParAt(a: seq<int>, i: int, k: int)
    requires 0 <= i < |a| && 0 <= k < |a| && i != k
    ensures 0 <= i * (|a| - 1) + Coluna(i, k) < |Pares(a, |a|)|
    ensures Pares(a, |a|)[i * (|a| - 1) + Coluna(i, k)] == [a[i], a[k]]
  {
    assert Outra(i, Coluna(i, k)) == k;
    ParesAt(a, i, |a|, Coluna(i, k));
    DeslocamentoMul(i, |a| - 1);
  }

  /** All the rows: `n * (n - 1)` pairs, the pair (i, k) at
      `i * (n - 1) + Coluna(i, k)`. */
  lemma ParesCompletos(a: seq<int>)
    ensures |Pares(a, |a|)| == |a| * (|a| - 1)
    ensures forall i, k :: 0 <= i < |a| && 0 <= k < |a| && i != k ==>
      0 <= i * (|a| - 1) + Coluna(i, k) < |Pares(a, |a|)| &&
      Pares(a, |a|)[i * (|a| - 1) + Coluna(i, k)] == [a[i], a[k]]
  {
    ParesLength(a, |a|);
    DeslocamentoMul(|a|, |a| - 1);
    forall i, k | 0 <= i < |a| && 0 <= k < |a| && i != k
      ensures 0 <= i * (|a| - 1) + Coluna(i, k) < |Pares(a, |a|)|
      ensures Pares(a, |a|)[i * (|a| - 1) + Coluna(i, k)] == [a[i], a[k]]
    {
      ParAt(a, i, k);
    }
  }

  /** `exemploOn2`: every ordered pair of distinct positions, row by row:
      `n * (n - 1)` pairs, the pair (i, k) at `i * (n - 1) + Coluna(i, k)`. */
  method ExemploOn2(arr: seq<int>) returns (pares: seq<seq<int>>)
    ensures |pares| == |arr| * (|arr| - 1)
    ensures forall i, k :: 0 <= i < |arr| && 0 <= k < |arr| && i != k ==>
      0 <= i * (|arr| - 1) + Coluna(i, k) < |pares| &&
      pares[i * (|arr| - 1) + Coluna(i, k)] == [arr[i], arr[k]]
  {
    pares := [];
    for i := 0 to |arr|
      invariant pares == Pares(arr, i)
    {
      for j := 0 to |arr|
        invariant pares == Pares(arr, i) + Linha(arr, i, j)
      {
        if i != j {
          pares := pares + [[arr[i], arr[j]]];
        }
        LinhaPasso(arr, i, j);
      }
    }
    ParesCompletos(arr);
  }

  // ---------------------------------------------------------------------
  // bubbleSort, merge and mergeSort
  // ---------------------------------------------------------------------

  /** `merge`, as the recursion its loop unrolls: the smaller head first,
      the left one on a tie. */
  ghost function Merged(l: seq<int>, r: seq<int>): seq<int>
    decreases |l| + |r|
  {
    if l == [] then r
    else if r == [] then l
    else if l[0] <= r[0] then [l[0]] + Merged(l[1..], r)
    else [r[0]] + Merged(l, r[1..])
  }

  lemma {:induction false} MergedElements(l: seq<int>, r: seq<int>)
    ensures multiset(Merged(l, r)) == multiset(l) + multiset(r)
    decreases |l| + |r|
  {
    if l != [] && r != [] {
      if l[0] <= r[0] {
        var resto := Merged(l[1..], r);
        MergedElements(l[1..], r);
        assert Merged(l, r) == [l[0]] + resto;
        assert l == [l[0]] + l[1..];
        assert multiset([l[0]] + resto) == multiset{l[0]} + multiset(resto);
      } else {
        var resto := Merged(l, r[1..]);
        MergedElements(l, r[1..]);
        assert Merged(l, r) == [r[0]] + resto;
        assert r == [r[0]] + r[1..];
        assert multiset([r[0]] + resto) == multiset{r[0]} + multiset(resto);
      }
    }
  }

  /** No element of `m` is below `x`. */
  ghost predicate Minorante(x: int, m: multiset<int>) {
    forall y :: y in m ==> x <= y
  }

  /** A sorted sequence with a head no greater than any later element. */
  lemma SortedCons(x: int, s: seq<int>)
    requires Sorted(s) && Minorante(x, multiset(s))
    ensures Sorted([x] + s)
  {
    assert forall k :: 0 <= k < |s| ==> s[k] in multiset(s);
  }

  /** The tail of a sorted sequence is sorted, and bounded below by its head
      and by anything below its head. */
  lemma SortedTail(s: seq<int>, x: int)
    requires Sorted(s) && s != [] && x <= s[0]
    ensures Sorted(s[1..]) && Minorante(x, multiset(s[1..])) && Minorante(x, multiset(s))
  {
    forall y | y in multiset(s)
      ensures x <= y
    {
      var k :| 0 <= k < |s| && s[k] == y;
    }
    assert s == [s[0]] + s[1..];
  }

  /** Merging two sorted sequences gives a sorted sequence. */
  lemma {:induction false} MergedSorted(l: seq<int>, r: seq<int>)
    requires Sorted(l) && Sorted(r)
    ensures Sorted(Merged(l, r))
    decreases |l| + |r|
  {
    if l != [] && r != [] {
      if l[0] <= r[0] {
        SortedTail(l, l[0]);
        SortedTail(r, l[0]);
        MergedSorted(l[1..], r);
        MergedElements(l[1..], r);
        SortedCons(l[0], Merged(l[1..], r));
      } else {
        SortedTail(r, r[0]);
        SortedTail(l, r[0]);
        MergedSorted(l, r[1..]);
        MergedElements(l, r[1..]);
        SortedCons(r[0], Merged(l, r[1..]));
      }
    }
  }

  /** `merge`: repeatedly pushes the smaller head, then appends what is left
      of both sides. */
  method Merge(esquerda: seq<int>, direita: seq<int>) returns (resultado: seq<int>)
    ensures resultado == Merged(esquerda, direita)
  {
    resultado := [];
    var i, j := 0, 0;
    while i < |esquerda| && j < |direita|
      invariant 0 <= i <= |esquerda| && 0 <= j <= |direita|
      invariant resultado + Merged(esquerda[i..], direita[j..]) == Merged(esquerda, direita)
      decreases |esquerda| - i + |direita| - j
    {
      assert esquerda[i..][1..] == esquerda[i + 1..];
      assert direita[j..][1..] == direita[j + 1..];
      if esquerda[i] <= direita[j] {
        resultado := resultado + [esquerda[i]];
        i := i + 1;
      } else {
        resultado := resultado + [direita[j]];
        j := j + 1;
      }
    }
    resultado := resultado + esquerda[i..] + direita[j..];
  }

  /** What `mergeSort` returns: split at the middle, sort both halves, merge
      them. */
  ghost function MergeSortOf(s: seq<int>): seq<int>
    decreases |s|
  {
    if |s| <= 1 then s
    else
      var meio := |s| / 2;
      Merged(MergeSortOf(s[..meio]), MergeSortOf(s[meio..]))
  }

  /** `mergeSort` returns the elements of its input in ascending order. */
  lemma {:induction false} MergeSortSorts(s: seq<int>)
    ensures Sorted(MergeSortOf(s)) && multiset(MergeSortOf(s)) == multiset(s)
    decreases |s|
  {
    if |s| > 1 {
      var meio := |s| / 2;
      var esquerda, direita := MergeSortOf(s[..meio]), MergeSortOf(s[meio..]);
      MergeSortSorts(s[..meio]);
      MergeSortSorts(s[meio..]);
      MergedSorted(esquerda, direita);
      MergedElements(esquerda, direita);
      assert MergeSortOf(s) == Merged(esquerda, direita);
      assert s == s[..meio] + s[meio..];
    }
  }

  /** `mergeSort`: splits at the middle, sorts both halves recursively and
      merges them with `merge`; the result is sorted and holds the elements
      of the input. */
  method MergeSort(arr: seq<int>) returns (r: seq<int>)
    ensures r == MergeSortOf(arr)
    ensures Sorted(r) && multiset(r) == multiset(arr)
    ensures |arr| <= 1 ==> r == arr
    decreases |arr|
  {
    MergeSortSorts(arr);
    if |arr| <= 1 {
      return arr;
    }
    var meio := |arr| / 2;
    var esquerda := MergeSort(arr[..meio]);
    var direita := MergeSort(arr[meio..]);
    r := Merge(esquerda, direita);
  }

  /** What holds between the passes of `bubbleSort` once the cells from
      `lim` on are in place: `a` holds the elements of `a0`, its tail from
      `lim` is sorted and no cell before `lim` exceeds a cell of the tail. */
  ghost predicate Bolhas(a0: seq<int>, a: seq<int>, lim: int)
    requires 0 <= lim <= |a|
  {
    && Ordenacao.PermutedWithin(a0, a, 0, |a|)
    && Ordenacao.SortedBetween(a, lim, |a|)
    && (forall k, l :: 0 <= k < lim <= l < |a| ==> a[k] <= a[l])
  }

  /** No cell up to `j` exceeds `a[j]`. */
  ghost predicate TopoEm(a: seq<int>, j: int)
    requires 0 <= j < |a|
  {
    forall k :: 0 <= k <= j ==> a[k] <= a[j]
  }

  /** One comparison of a pass, `b` being the array after it: the largest
      cell seen so far moves on to `j + 1`. */
  lemma BolhaPasso(a0: seq<int>, a: seq<int>, b: seq<int>, lim: int, j: int)
    requires 0 <= j && j + 1 < lim <= |a| && Bolhas(a0, a, lim) && TopoEm(a, j)
    requires b == if a[j] > a[j + 1] then Ordenacao.Swapped(a, j, j + 1) else a
    ensures Bolhas(a0, b, lim) && TopoEm(b, j + 1)
  {
    if a[j] > a[j + 1] {
      Ordenacao.PermutedWithinSwap(a0, a, 0, |a|, j, j + 1);
    }
  }

  /** At the end of a pass the largest cell before `lim` sits at `lim - 1`. */
  lemma BolhaFim(a0: seq<int>, a: seq<int>, lim: int)
    requires 0 < lim <= |a| && Bolhas(a0, a, lim) && TopoEm(a, lim - 1)
    ensures Bolhas(a0, a, lim - 1)
  {
  }

  /** `bubbleSort`: sorts a copy of its argument by swapping neighbours out of
      order; pass `i` carries the largest remaining element to `n - i - 1`.
      The result is the one `mergeSort` returns. */
  method BubbleSort(entrada: seq<int>) returns (r: seq<int>)
    ensures Sorted(r) && multiset(r) == multiset(entrada)
    ensures r == MergeSortOf(entrada)
  {
    var arr := new int[|entrada|](k requires 0 <= k < |entrada| => entrada[k]);
    assert arr[..] == entrada;
    var n := arr.Length;
    Ordenacao.PermutedWithinRefl(entrada, 0, n);
    for i := 0 to n
      invariant Bolhas(entrada, arr[..], n - i)
    {
      for j := 0 to n - i - 1
        invariant Bolhas(entrada, arr[..], n - i) && TopoEm(arr[..], j)
      {
        ghost var antes := arr[..];
        if arr[j] > arr[j + 1] {
          var temp := arr[j];
          arr[j] := arr[j + 1];
          arr[j + 1] := temp;
          assert arr[..] == Ordenacao.Swapped(antes, j, j + 1);
        }
        BolhaPasso(entrada, antes, arr[..], n - i, j);
      }
      BolhaFim(entrada, arr[..], n - i);
    }
    r := arr[..];
    Ordenacao.PermutedWithinElements(entrada, r, 0, n);
    MergeSortSorts(entrada);
    Ordenacao.SortedAscendingUnique(r, MergeSortOf(entrada));
  }

  // ---------------------------------------------------------------------
  // armadilhaMetodosArray and solucaoMelhor
  // ---------------------------------------------------------------------

  /** The arrays laid end to end. */
  ghost function Flatten(arrays: seq<seq<int>>): seq<int> {
    if arrays == [] then [] else Flatten(arrays[..|arrays| - 1]) + arrays[|arrays| - 1]
  }

  /** An element of the flattening is an element of one of the arrays, and
      back. */
  lemma {:induction false} FlattenMembers(arrays: seq<seq<int>>, x: int)
    ensures x in Flatten(arrays) <==> exists k :: 0 <= k < |arrays| && x in arrays[k]
  {
    if arrays != [] {
      var init := arrays[..|arrays| - 1];
      FlattenMembers(init, x);
      assert forall k :: 0 <= k < |init| ==> init[k] == arrays[k];
    }
  }

  /** The flattening is empty exactly when every array is. */
  lemma {:induction false} FlattenEmpty(arrays: seq<seq<int>>)
    ensures Flatten(arrays) == [] <==> forall k :: 0 <= k < |arrays| ==> arrays[k] == []
  {
    if arrays != [] {
      var init := arrays[..|arrays| - 1];
      FlattenEmpty(init);
      assert forall k :: 0 <= k < |init| ==> init[k] == arrays[k];
    }
  }

  /** `armadilhaMetodosArray` as written: `concat` returns a new array that is
      dropped, so `resultado` stays empty whatever the input. */
  method ArmadilhaMetodosArray(arrays: seq<seq<int>>) returns (resultado: seq<int>)
    ensures resultado == []
  {
    resultado := [];
    for i := 0 to |arrays|
      invariant resultado == []
    {
      var descartado := resultado + arrays[i];
    }
  }

  /** The trap answers as `solucaoMelhor` does only when every array is empty:
      on [[1]] it returns [] where the flattening is [1]. */
  lemma ArmadilhaDiverge()
    ensures Flatten([[1]]) == [1]
  {
    assert [[1]][..0] == [];
  }

  /** `solucaoMelhor`: pushes the cells of every array in turn. */
  method SolucaoMelhor(arrays: seq<seq<int>>) returns (resultado: seq<int>)
    ensures resultado == Flatten(arrays)
  {
    resultado := [];
    for i := 0 to |arrays|
      invariant resultado == Flatten(arrays[..i])
    {
      var currentArray := arrays[i];
      for j := 0 to |currentArray|
        invariant resultado == Flatten(arrays[..i]) + currentArray[..j]
      {
        resultado := resultado + [currentArray[j]];
      }
      assert arrays[..i + 1][..i] == arrays[..i];
    }
    assert arrays[..|arrays|] == arrays;
  }

  // ---------------------------------------------------------------------
  // encontrarDuplicatasLento and encontrarDuplicatasRapido
  // ---------------------------------------------------------------------

  /** No value occurs twice. */
  ghost predicate SemRepeticao(s: seq<int>) {
    forall p, q :: 0 <= p < q < |s| ==> s[p] != s[q]
  }

  /** The values that occur at least twice in `a`, each listed once. */
  ghost predicate Duplicatas(a: seq<int>, d: seq<int>) {
    SemRepeticao(d) && forall x :: x in d <==> multiset(a)[x] >= 2
  }

  /** Once row `i` of the slow search is done, its value is reported exactly
      when it occurs again later. */
  lemma DuplicataLinha(a: seq<int>, i: int, x: int)
    requires 0 <= i < |a|
    ensures ((x in a[..i] && multiset(a)[x] >= 2) || (x == a[i] && a[i] in a[i + 1..]))
      <==> (x in a[..i + 1] && multiset(a)[x] >= 2)
  {
    assert a == a[..i] + [a[i]] + a[i + 1..];
    assert a[..i + 1] == a[..i] + [a[i]];
    if x == a[i] && x !in a[..i] && multiset(a)[x] >= 2 {
      assert multiset(a[i + 1..])[x] >= 1;
    }
  }

  /** `encontrarDuplicatasLento`: compares every pair, pushing a repeated
      value the first time it is seen. */
  method EncontrarDuplicatasLento(arr: seq<int>) returns (duplicatas: seq<int>)
    ensures Duplicatas(arr, duplicatas)
  {
    duplicatas := [];
    for i := 0 to |arr|
      invariant SemRepeticao(duplicatas)
      invariant forall x :: x in duplicatas <==> x in arr[..i] && multiset(arr)[x] >= 2
    {
      for j := i + 1 to |arr|
        invariant SemRepeticao(duplicatas)
        invariant forall x :: x in duplicatas <==>
          (x in arr[..i] && multiset(arr)[x] >= 2) || (x == arr[i] && arr[i] in arr[i + 1..j])
      {
        assert arr[i + 1..j + 1] == arr[i + 1..j] + [arr[j]];
        var valueI := arr[i];
        var valueJ := arr[j];
        if valueI == valueJ && valueI !in duplicatas {
          duplicatas := duplicatas + [valueI];
        }
      }
      forall x
        ensures x in duplicatas <==> x in arr[..i + 1] && multiset(arr)[x] >= 2
      {
        DuplicataLinha(arr, i, x);
      }
    }
    assert arr[..|arr|] == arr;
  }

  /** `encontrarDuplicatasRapido`: one pass with the set of values seen and
      the insertion-ordered set of values seen twice. */
  method EncontrarDuplicatasRapido(arr: seq<int>) returns (duplicatas: seq<int>)
    ensures Duplicatas(arr, duplicatas)
  {
    var visto: set<int> := {};
    duplicatas := [];
    for k := 0 to |arr|
      invariant forall x :: x in visto <==> x in multiset(arr[..k])
      invariant SemRepeticao(duplicatas)
      invariant forall x :: x in duplicatas <==> multiset(arr[..k])[x] >= 2
    {
      assert arr[..k + 1] == arr[..k] + [arr[k]];
      var num := arr[k];
      if num in visto {
        if num !in duplicatas {
          duplicatas := duplicatas + [num];
        }
      } else {
        visto := visto + {num};
      }
    }
    assert arr[..|arr|] == arr;
  }

  // ---------------------------------------------------------------------
  // somaParesLento and somaParesRapido
  // ---------------------------------------------------------------------

  /** The even cells of `s`, added up. `x % 2 == 0` holds for the same
      integers under JavaScript's truncating `%` as under Dafny's. */
  function SomaPares(s: seq<int>): int {
    if s == [] then 0
    else SomaPares(s[..|s| - 1]) + (if s[|s| - 1] % 2 == 0 then s[|s| - 1] else 0)
  }

  /** `somaParesLento` as written: row `i` adds `arr[i]` when it is even, but
      only when the inner loop runs, so the last cell is never counted. */
  method SomaParesLento(arr: seq<int>) returns (soma: int)
    ensures |arr| == 0 ==> soma == 0
    ensures |arr| > 0 ==> soma == SomaPares(arr[..|arr| - 1])
  {
    soma := 0;
    for i := 0 to |arr|
      invariant i < |arr| ==> soma == SomaPares(arr[..i])
      invariant i == |arr| > 0 ==> soma == SomaPares(arr[..i - 1])
      invariant |arr| == 0 ==> soma == 0
    {
      ghost var somaAntes := soma;
      for j := i + 1 to |arr|
        invariant soma == somaAntes
        invariant j > i + 1 ==> arr[i] % 2 != 0
      {
        var value := arr[i];
        if value % 2 == 0 {
          soma := soma + value;
          break;
        }
      }
      assert soma == somaAntes + if i + 1 < |arr| && arr[i] % 2 == 0 then arr[i] else 0;
      assert arr[..i + 1][..i] == arr[..i];
    }
  }

  /** `somaParesRapido`: one pass adding the even cells. */
  method SomaParesRapido(arr: seq<int>) returns (soma: int)
    ensures soma == SomaPares(arr)
  {
    soma := 0;
    for k := 0 to |arr|
      invariant soma == SomaPares(arr[..k])
    {
      assert arr[..k + 1][..k] == arr[..k];
      var num := arr[k];
      if num % 2 == 0 {
        soma := soma + num;
      }
    }
    assert arr[..|arr|] == arr;
  }

  /** The slow version misses an even last cell: on [2] it returns 0 where
      the sum of the even cells is 2. */
  lemma SomaParesLentoDiverge()
    ensures SomaPares([2][..0]) == 0 && SomaPares([2]) == 2
  {
    assert [2][..0] == [];
  }
}
