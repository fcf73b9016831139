# Verified model of the ts-aulas data-structure lessons

The repository is a set of TypeScript teaching scripts. Its logic lives under
`src/bonus/` and in `src/main.ts`. This project models that logic in Dafny 4.11
and proves what each script promises, in its comments and in its demos:

- a binary search tree (`bst.ts`);
- singly and doubly linked lists, plus a stack and a queue built on them
  (`lista-ligada.ts`);
- in-place Lomuto quicksort, with and without a comparison function
  (`ordenacao-de-array.ts`);
- the algorithm catalogue of the complexity lesson (`big-o-notation.ts`):
  binary search, bubble sort, merge sort, Fibonacci with and without a memo,
  pair generation, duplicate search, sums;
- a separate-chaining hash map with a djb2 hash (`hashmap.ts`);
- the small linked list and remainder hash of the entry script (`main.ts`).

TypeScript `number` is modelled as `int`. Every generic `T` that the scripts
compare is fixed to `int`, and the hash map's keys are fixed to `string`.

One module per source file:

| file | module | source |
|---|---|---|
| `wrappers.dfy` | `Wrappers` | `Option`, `Result` and `Outcome`. They stand for the `null` and `undefined` answers and for the thrown errors. |
| `bst.dfy` | `Bst` | `src/bonus/bst.ts` |
| `lista_ligada.dfy` | `ListasLigadas` | `src/bonus/lista-ligada.ts` |
| `ordenacao.dfy` | `Ordenacao` | `src/bonus/ordenacao-de-array.ts` |
| `big_o.dfy` | `BigO` | `src/bonus/big-o-notation.ts` |
| `hashmap.dfy` | `HashMap` | `src/bonus/hashmap.ts` |
| `main_script.dfy` | `MainScript` | `src/main.ts` |

Each part takes the form of its code:

- **Search tree.** The tree is a datatype and `BinarySearchTree` a class whose
  `root` field the methods reassign. `insertRecursive` and `removeRecursive`
  become functions that return the new subtree. `findMin` and `findMax` are
  `while` loops, and the traversals are recursive methods that push into a
  result sequence.
- **Linked lists.** They are heap classes (`No`, `ListaLigada`, `NoDuplo`,
  `ListaDuplamenteLigada`, `Pilha`, `Fila`). A ghost sequence `nodes` holds
  the chain of nodes and `Contents` holds their values. `Valid()` ties the
  pointers, `tamanho` and the tail to them. Each method states its new
  `Contents` as a function of the old one.
- **Quicksort.** It works on an `array<int>` in place. Permutation is stated
  inside the sorted window, with everything outside the window unchanged.
- **Hash map.** It keeps `array<seq<KeyValuePair<V>>>` buckets and a ghost map
  `Contents`. The invariant checks that:
  - `size` is the number of stored pairs;
  - every pair sits in the bucket of its key;
  - no bucket holds the same key twice;
  - every key's lookup in its bucket agrees with `Contents`.

Where a script's demo prints an expected answer, a client method or lemma
proves that answer from the contracts. One example is the tree built from
8, 3, 10, 1, 6, 14, 4, 7, 13. The tree demo labels its final removal of 3 as
"two children", but by then 1 is gone, so 3 has only its right child. The
model proves both removals: the one the demo performs
(`Bst.ExampleRemoveWithRightChildOnly`) and the two-children case on the full
tree (`Bst.ExampleTwoChildrenRemoval`).

## Model

| member | source | states |
|---|---|---|
| Bst.InsertRecursive | src/bonus/bst.ts:92-110 | The values of the new tree are the old values plus `value`. A search tree stays a search tree. A value already present leaves the tree exactly as it was. |
| Bst.BinarySearchTree.constructor | src/bonus/bst.ts:67-76 | A new tree is empty and satisfies the ordering invariant. |
| Bst.BinarySearchTree.Insert | src/bonus/bst.ts:88-90 | The root becomes `insertRecursive`'s result and the invariant is kept. The stored set gains `value`; a duplicate changes nothing. |
| Bst.SearchRecursiveCorrect | src/bonus/bst.ts:127-142 | On a search tree, the descent by comparison answers true exactly when the value is stored. |
| Bst.BinarySearchTree.Search | src/bonus/bst.ts:123-125 | `search` is true if and only if the value is in the tree. |
| Bst.RemoveRecursive | src/bonus/bst.ts:159-190 | On a search tree the result is a search tree holding the old values minus `value` (leaf, one-child and successor copy-up cases). The values never grow. |
| Bst.BinarySearchTree.Remove | src/bonus/bst.ts:153-157 | The invariant is kept and the stored set loses `value`. The answer is true exactly when the value was present, which is exactly when the size drops by one. |
| Bst.ExampleTwoChildrenRemoval | src/bonus/bst.ts:180-186 | Removing 3, which has two children, from the full example copies up its successor 4 and deletes the successor's old node. |
| Bst.Leftmost | src/bonus/bst.ts:195-200 | The node `findMin` stops at holds the first value of the in-order sequence. That value is stored, and on a search tree it is the least. |
| Bst.Rightmost | src/bonus/bst.ts:205-210 | The node `findMax` stops at holds the last in-order value. That value is stored, and on a search tree it is the greatest. |
| Bst.FindMin | src/bonus/bst.ts:195-200 | The walk ends at a node with no left child, holding `Leftmost`. |
| Bst.FindMax | src/bonus/bst.ts:205-210 | The walk ends at a node with no right child, holding `Rightmost`. |
| Bst.InOrderRecursive | src/bonus/bst.ts:226-232 | Appends the left subtree, the node and the right subtree, in that order, to `result`. |
| Bst.PreOrderRecursive | src/bonus/bst.ts:244-250 | Appends the node, then the left and right subtrees, to `result`. |
| Bst.PostOrderRecursive | src/bonus/bst.ts:262-268 | Appends the left and right subtrees, then the node, to `result`. |
| Bst.InOrderValues | src/bonus/bst.ts:226-232 | The in-order sequence holds exactly the tree's values. |
| Bst.InOrderSorted | src/bonus/bst.ts:216-232 | On a search tree the in-order sequence is strictly ascending. |
| Bst.TraversalsArePermutations | src/bonus/bst.ts:220-268 | Pre-order and post-order are permutations of in-order. All three have as many entries as `sizeRecursive` counts. |
| Bst.SizeIsCardinality | src/bonus/bst.ts:288-293 | On a search tree the node count is the number of distinct stored values. |
| Bst.HeightBounds | src/bonus/bst.ts:303-312 | Height is between -1 and size - 1, and a tree of height h has fewer than 2^(h+1) nodes. |
| Bst.IsValidBSTRecursiveCorrect | src/bonus/bst.ts:341-359 | The open-interval checker accepts a tree if and only if the tree is a search tree whose values all lie strictly inside the interval. |
| Bst.BinarySearchTree.IsValidBST | src/bonus/bst.ts:337-339 | `isValidBST` is true exactly when the ordering invariant holds. |
| Bst.BinarySearchTree.InOrderTraversal | src/bonus/bst.ts:220-224 | The result is strictly ascending, has `size()` entries and lists exactly the stored values. |
| Bst.BinarySearchTree.PreOrderTraversal | src/bonus/bst.ts:238-242 | The pre-order sequence is a permutation of the in-order one. |
| Bst.BinarySearchTree.PostOrderTraversal | src/bonus/bst.ts:256-260 | The post-order sequence is a permutation of the in-order one. |
| Bst.BinarySearchTree.IsEmpty | src/bonus/bst.ts:277-279 | True exactly when no value is stored. |
| Bst.BinarySearchTree.Size | src/bonus/bst.ts:284-286 | The number of stored values. |
| Bst.BinarySearchTree.Height | src/bonus/bst.ts:299-301 | Between -1 and size - 1; -1 exactly for the empty tree. |
| Bst.BinarySearchTree.FindMinValue | src/bonus/bst.ts:317-322 | None exactly for the empty tree. Otherwise the first in-order value, which is the least stored value. |
| Bst.BinarySearchTree.FindMaxValue | src/bonus/bst.ts:327-332 | None exactly for the empty tree. Otherwise the last in-order value, which is the greatest stored value. |
| Bst.ExampleTreeFacts | src/bonus/bst.ts:13-21 | The drawn example tree is valid, lists 1, 3, 4, 6, 7, 8, 10, 13, 14 in order, and has size 9 and height 3. |
| Bst.ExemploInsercoes | src/bonus/bst.ts:405-412 | Inserting 8, 3, 10, 1, 6, 14, 4, 7, 13 into a new tree builds exactly the drawn tree. |
| Bst.ExemploBasico | src/bonus/bst.ts:424-436 | The demo's in-order sequence is printed, with size 9, height 3, least value 1 and greatest value 14. |
| Bst.ExampleRemoveLeaf | src/bonus/bst.ts:440 | Removing the leaf 1 drops it. |
| Bst.ExampleRemoveOneChild | src/bonus/bst.ts:441 | Removing 14 lifts its only child 13. |
| Bst.ExampleRemoveWithRightChildOnly | src/bonus/bst.ts:442 | After those removals, 3 has only its right child, which replaces it. |
| Bst.ExampleAfterRemovals | src/bonus/bst.ts:445-446 | The tree left is valid and lists 4, 6, 7, 8, 10, 13 in order. |
| Bst.ExemploArvoreVazia | src/bonus/bst.ts:160-161 | On an empty tree, removing and searching answer false and there is no minimum or maximum. |
| ListasLigadas.InsertAt | src/bonus/lista-ligada.ts:145-155 | The sequence grows by one; `d` sits at position `p`; cells before `p` are kept and cells from `p` on move up by one. |
| ListasLigadas.RemoveAt | src/bonus/lista-ligada.ts:220-230 | The sequence shrinks by one; cells before `p` are kept and later cells move down by one. |
| ListasLigadas.InsertAtRemoveAt | src/bonus/lista-ligada.ts:134-231 | Removing at `p` undoes inserting at `p`, and inserting the removed value back undoes a removal. |
| ListasLigadas.IndexOf | src/bonus/lista-ligada.ts:269-282 | -1 exactly when the value is absent; otherwise a position holding it with no earlier occurrence. |
| ListasLigadas.RemoveFirstAt | src/bonus/lista-ligada.ts:237-259 | Deleting the first occurrence is removing at the position `buscar` reports. |
| ListasLigadas.Reversed | src/bonus/lista-ligada.ts:358-371 | Same length; cell k holds what was at the mirrored position. |
| ListasLigadas.ReversedTwice | src/bonus/lista-ligada.ts:358-371 | Reversing twice gives back the sequence. |
| ListasLigadas.Filtered | src/bonus/lista-ligada.ts:424-432 | The kept elements number at most the elements inspected. |
| ListasLigadas.FilteredKeeps | src/bonus/lista-ligada.ts:424-432 | Every kept element comes from some index at which the callback holds. |
| ListasLigadas.FilteredAllOrNone | src/bonus/lista-ligada.ts:424-432 | A callback true everywhere keeps the whole list, and one false everywhere keeps none. |
| ListasLigadas.No.constructor | src/bonus/lista-ligada.ts:72-75 | A node holds its data and no successor. |
| ListasLigadas.ListaLigada.constructor | src/bonus/lista-ligada.ts:89-92 | A new list is empty. |
| ListasLigadas.ListaLigada.InserirNoInicio | src/bonus/lista-ligada.ts:102-107 | The contents become `[d] + s`, and `tamanho` keeps counting the nodes. |
| ListasLigadas.ListaLigada.InserirNoFim | src/bonus/lista-ligada.ts:113-128 | The contents become `s + [d]`. |
| ListasLigadas.ListaLigada.InserirNaPosicao | src/bonus/lista-ligada.ts:134-156 | Fails, changing nothing, unless 0 <= p <= size; otherwise the contents become `InsertAt(s, p, d)`. |
| ListasLigadas.ListaLigada.RemoverDoInicio | src/bonus/lista-ligada.ts:166-175 | None on an empty list; otherwise returns `s[0]` and leaves `s[1..]`. |
| ListasLigadas.ListaLigada.RemoverDoFim | src/bonus/lista-ligada.ts:181-204 | None on an empty list; otherwise returns the last value and leaves the rest. |
| ListasLigadas.ListaLigada.RemoverDaPosicao | src/bonus/lista-ligada.ts:210-231 | Fails, changing nothing, unless 0 <= p < size; otherwise returns `s[p]` and leaves `RemoveAt(s, p)`. |
| ListasLigadas.ListaLigada.RemoverPorValor | src/bonus/lista-ligada.ts:237-259 | True exactly when the value was present. Exactly its first occurrence is deleted; otherwise nothing changes. |
| ListasLigadas.ListaLigada.Buscar | src/bonus/lista-ligada.ts:269-282 | The position of the first occurrence, or -1. |
| ListasLigadas.ListaLigada.ObterPorPosicao | src/bonus/lista-ligada.ts:288-299 | Fails unless 0 <= p < size; otherwise `s[p]`, with the list unchanged. |
| ListasLigadas.ListaLigada.Contem | src/bonus/lista-ligada.ts:305-307 | True if and only if the value is in the list. |
| ListasLigadas.ListaLigada.ObterTamanho | src/bonus/lista-ligada.ts:317-319 | The number of elements. |
| ListasLigadas.ListaLigada.EstaVazia | src/bonus/lista-ligada.ts:325-327 | True exactly when the list is empty. |
| ListasLigadas.ListaLigada.Limpar | src/bonus/lista-ligada.ts:333-336 | The list becomes empty, with `tamanho` 0. |
| ListasLigadas.ListaLigada.ParaArray | src/bonus/lista-ligada.ts:342-352 | The values from head to tail. |
| ListasLigadas.ListaLigada.Inverter | src/bonus/lista-ligada.ts:358-371 | The contents become the reverse of the old ones; `tamanho` is unchanged. |
| ListasLigadas.ListaLigada.Map | src/bonus/lista-ligada.ts:412-418 | One result per element, cell i being `callback(s[i], i)`. |
| ListasLigadas.ListaLigada.Filter | src/bonus/lista-ligada.ts:424-432 | A fresh list holding exactly the elements the callback keeps, in their original order. |
| ListasLigadas.NoDuplo.constructor | src/bonus/lista-ligada.ts:447-451 | A node with its data and no neighbours. |
| ListasLigadas.ListaDuplamenteLigada.CabecaCaudaNulas | src/bonus/lista-ligada.ts:458-467 | Head and tail are null together, exactly when the list is empty. |
| ListasLigadas.ListaDuplamenteLigada.constructor | src/bonus/lista-ligada.ts:463-467 | A new list is empty. |
| ListasLigadas.ListaDuplamenteLigada.InserirNoInicio | src/bonus/lista-ligada.ts:472-483 | The contents become `[d] + s`; the `anterior` links keep mirroring `proximo`. |
| ListasLigadas.ListaDuplamenteLigada.InserirNoFim | src/bonus/lista-ligada.ts:488-499 | The contents become `s + [d]`; the chain keeps ending at `cauda`. |
| ListasLigadas.ListaDuplamenteLigada.RemoverDoInicio | src/bonus/lista-ligada.ts:504-520 | None on an empty list; otherwise the first value, leaving the rest. |
| ListasLigadas.ListaDuplamenteLigada.RemoverDoFim | src/bonus/lista-ligada.ts:525-541 | None on an empty list; otherwise the last value, leaving the rest. |
| ListasLigadas.ListaDuplamenteLigada.ObterTamanho | src/bonus/lista-ligada.ts:543-545 | The number of elements. |
| ListasLigadas.Pilha.constructor | src/bonus/lista-ligada.ts:571-572 | A new stack is empty. |
| ListasLigadas.Pilha.Push | src/bonus/lista-ligada.ts:574-576 | The item goes on top. |
| ListasLigadas.Pilha.Pop | src/bonus/lista-ligada.ts:578-580 | None when empty; otherwise the most recently pushed item, which is removed (LIFO). |
| ListasLigadas.Pilha.Peek | src/bonus/lista-ligada.ts:582-584 | The top item, or None, with the stack unchanged. |
| ListasLigadas.Pilha.IsEmpty | src/bonus/lista-ligada.ts:586-588 | True exactly when the stack is empty. |
| ListasLigadas.Pilha.Size | src/bonus/lista-ligada.ts:590-592 | The number of items. |
| ListasLigadas.Fila.constructor | src/bonus/lista-ligada.ts:602-603 | A new queue is empty. |
| ListasLigadas.Fila.Enqueue | src/bonus/lista-ligada.ts:605-607 | The item joins at the back. |
| ListasLigadas.Fila.Dequeue | src/bonus/lista-ligada.ts:609-611 | None when empty; otherwise the oldest item, which is removed (FIFO). |
| ListasLigadas.Fila.Front | src/bonus/lista-ligada.ts:613-615 | The oldest item, or None, with the queue unchanged. |
| ListasLigadas.Fila.IsEmpty | src/bonus/lista-ligada.ts:617-619 | True exactly when the queue is empty. |
| ListasLigadas.Fila.Size | src/bonus/lista-ligada.ts:621-623 | The number of items. |
| ListasLigadas.ListaDe | src/bonus/lista-ligada.ts:113-128 | Repeated `inserirNoFim` builds a list holding the given values in order. |
| ListasLigadas.ExemploInsercoes | src/bonus/lista-ligada.ts:642-650 | The demo's inserts give 5, 10, 20, 25, then inserting 15 at position 2 gives 5, 10, 15, 20, 25. |
| ListasLigadas.ExemploBuscas | src/bonus/lista-ligada.ts:654-657 | 15 is at position 2, position 1 holds 10, 20 is present and 100 is not. |
| ListasLigadas.ExemploRemocoes | src/bonus/lista-ligada.ts:661-666 | The demo removes 5 from the front and 25 from the back, leaving 10, 15, 20; removing 15 leaves 10, 20. |
| ListasLigadas.ExemploFiltrado | src/bonus/lista-ligada.ts:677 | Keeping the values above 20 from 10, 20, 30, 40 gives 30, 40. |
| ListasLigadas.ExemploFuncionais | src/bonus/lista-ligada.ts:670-678 | Doubling gives 20, 40, 60, 80, and the filter gives 30, 40. |
| ListasLigadas.ExemploInversao | src/bonus/lista-ligada.ts:682-684 | Reversing 10, 20, 30, 40 gives 40, 30, 20, 10. |
| ListasLigadas.ExemploListaDupla | src/bonus/lista-ligada.ts:689-699 | From A, B, C, D the doubly linked list removes A at the front and D at the back, leaving two values. |
| ListasLigadas.ExemploPilha | src/bonus/lista-ligada.ts:705-711 | After pushing 1, 2, 3, pop returns 3 and the top becomes 2. |
| ListasLigadas.ExemploFila | src/bonus/lista-ligada.ts:715-721 | After enqueueing three words, dequeue returns "primeiro" and the front becomes "segundo". |
| Ordenacao.BagIsMultiset | src/bonus/ordenacao-de-array.ts:331-342 | The element bag used for the permutation argument is the sequence's multiset. |
| Ordenacao.Swapped | src/bonus/ordenacao-de-array.ts:354-356 | Cells i and j trade values, and every other cell is kept. |
| Ordenacao.PermutedWithinSwap | src/bonus/ordenacao-de-array.ts:331-340 | A swap inside the window keeps the window a permutation of the original, with the outside untouched. |
| Ordenacao.PermutedWithinElements | src/bonus/ordenacao-de-array.ts:331-342 | A permutation inside a window keeps the whole array's multiset. |
| Ordenacao.SortedByUnique | src/bonus/ordenacao-de-array.ts:367-387 | Under an antisymmetric comparison, two sorted permutations of the same elements are equal. |
| Ordenacao.Trocar | src/bonus/ordenacao-de-array.ts:348-357 | Fails, changing nothing, if either index is outside the array; otherwise swaps the two cells and nothing else. |
| Ordenacao.Varrer | src/bonus/ordenacao-de-array.ts:329-337 | The scan leaves [inicio, i] at or below the pivot and (i, fim) above it, as a permutation of the window. |
| Ordenacao.Particionar | src/bonus/ordenacao-de-array.ts:319-343 | Fails, changing nothing, when fim >= length or inicio < 0, and also when fim < inicio and the swap `trocar` tries is out of range (fim < 0 or inicio >= length). With inicio <= fim it returns p in [inicio, fim] holding the old cell `fim`: cells left of p are at or below it, cells right of it above, the window is permuted and the rest untouched. With fim < inicio it returns inicio, after swapping cells inicio and fim. |
| Ordenacao.QuickSort | src/bonus/ordenacao-de-array.ts:300-312 | Returns the same array. The window [inicio, fim] ends up sorted ascending and a permutation of the original window, with the rest untouched. Out-of-range indices fail when a partition is needed. |
| Ordenacao.PostPartition | src/bonus/ordenacao-de-array.ts:302-309 | A partition followed by sorting both sides sorts the whole window as a permutation. |
| Ordenacao.VarrerBy | src/bonus/ordenacao-de-array.ts:403-409 | As `Varrer`, with `compare(x, pivo) <= 0` choosing the left side. |
| Ordenacao.ParticionarComComparacao | src/bonus/ordenacao-de-array.ts:389-413 | As `Particionar`, ordered by `compare`. |
| Ordenacao.QuickSortComComparacao | src/bonus/ordenacao-de-array.ts:367-387 | The window is always a permutation of the original. When `compare` is a total preorder, the window is sorted by it. |
| Ordenacao.PostPartitionBy | src/bonus/ordenacao-de-array.ts:380-384 | As `PostPartition`, for a total-preorder comparison. |
| Ordenacao.DecrescenteIsTotalPreorder | src/bonus/ordenacao-de-array.ts:436-439 | `(a, b) => b - a` is a total preorder, so the comparator variant sorts descending with it. |
| Ordenacao.SortedAscendingUnique | src/bonus/ordenacao-de-array.ts:300-312 | Only one ascending arrangement of a multiset exists, so the quicksort result is determined. |
| Ordenacao.SortedDescendingUnique | src/bonus/ordenacao-de-array.ts:367-387 | The same for descending order. |
| Ordenacao.ExemploQuickSort | src/bonus/ordenacao-de-array.ts:422-425 | 64, 34, 25, 12, 22, 11, 90 sorts to 11, 12, 22, 25, 34, 64, 90. |
| Ordenacao.ExemploQuickSortDecrescente | src/bonus/ordenacao-de-array.ts:434-440 | With `(a, b) => b - a` the same array sorts to 90, 64, 34, 25, 22, 12, 11. |
| BigO.BuscaBinaria | src/bonus/big-o-notation.ts:80-97 | The answer is -1 or a position in range. A non-negative answer holds the target; on a sorted array, -1 means the target is absent. |
| BigO.ExemploOn | src/bonus/big-o-notation.ts:104-113 | The sum of all cells. |
| BigO.ExemploOn2 | src/bonus/big-o-notation.ts:120-133 | n·(n-1) pairs; the pair (a[i], a[k]) for i ≠ k sits at i·(n-1) plus k's place in row i (row-major, diagonal skipped). |
| BigO.ParesCompletos | src/bonus/big-o-notation.ts:120-133 | The rows together hold n·(n-1) pairs at those positions. |
| BigO.FibonacciOtimizado | src/bonus/big-o-notation.ts:381-393 | Equals `fibonacciIneficiente(n)`. The memo only grows, and every entry m ↦ r has r = fib(m). |
| BigO.EspacoLinear | src/bonus/big-o-notation.ts:249-257 | A new array of the same length with every cell doubled. |
| BigO.BubbleSort | src/bonus/big-o-notation.ts:267-282 | A sorted permutation of the input, which is left alone; it equals `mergeSort`'s result. |
| BigO.MergedElements | src/bonus/big-o-notation.ts:298-313 | The merge holds exactly the elements of both inputs. |
| BigO.MergedSorted | src/bonus/big-o-notation.ts:298-313 | Merging two sorted arrays gives a sorted array. |
| BigO.Merge | src/bonus/big-o-notation.ts:298-313 | The loop and final concatenation compute the merge, taking from the left on ties. |
| BigO.MergeSortSorts | src/bonus/big-o-notation.ts:288-296 | Merge sort returns a sorted permutation of its input. |
| BigO.MergeSort | src/bonus/big-o-notation.ts:288-296 | A sorted permutation of the input; inputs of length <= 1 come back as they are. |
| BigO.FlattenMembers | src/bonus/big-o-notation.ts:364-376 | A value is in the flattening exactly when it is in one of the arrays. |
| BigO.FlattenEmpty | src/bonus/big-o-notation.ts:350-376 | The flattening is empty exactly when every array is. |
| BigO.ArmadilhaMetodosArray | src/bonus/big-o-notation.ts:350-359 | As written, the result is always empty, because each `concat` result is dropped. |
| BigO.ArmadilhaDiverge | src/bonus/big-o-notation.ts:350-376 | On [[1]] the flattening is [1], where the trap returns []. |
| BigO.SolucaoMelhor | src/bonus/big-o-notation.ts:364-376 | The arrays laid end to end. |
| BigO.EncontrarDuplicatasLento | src/bonus/big-o-notation.ts:402-417 | Exactly the values occurring at least twice, each listed once. |
| BigO.EncontrarDuplicatasRapido | src/bonus/big-o-notation.ts:419-433 | The same set of values as the slow version, each listed once. |
| BigO.SomaParesLento | src/bonus/big-o-notation.ts:438-453 | As written: the sum of the even cells except the last cell. |
| BigO.SomaParesRapido | src/bonus/big-o-notation.ts:455-466 | The sum of all even cells. |
| BigO.SomaParesLentoDiverge | src/bonus/big-o-notation.ts:438-466 | On [2] the slow version's sum is 0, where the sum of the even cells is 2. |
| HashMap.ToInt32 | src/bonus/hashmap.ts:115-116 | The signed 32-bit value congruent to x modulo 2^32, which `hash & hash` yields. |
| HashMap.HashStepIsTimes33 | src/bonus/hashmap.ts:115-116 | `((hash << 5) + hash) + char` followed by `& hash` is `hash * 33 + char` wrapped to 32 bits. |
| HashMap.Djb2 | src/bonus/hashmap.ts:110-117 | djb2 over the character codes stays a signed 32-bit integer. |
| HashMap.BucketIndex | src/bonus/hashmap.ts:120 | `Math.abs(hash) % capacity` lies in [0, capacity). |
| HashMap.KeyPosition | src/bonus/hashmap.ts:139-145 | The first position in a bucket holding the key, or -1 when none does. |
| HashMap.ConsistentEmpty | src/bonus/hashmap.ts:87-96 | All-empty buckets with size 0 represent the empty map. |
| HashMap.ConsistentOverwrite | src/bonus/hashmap.ts:139-143 | Overwriting the value of the key's pair keeps the invariant for the updated map, with the same size. |
| HashMap.ConsistentAppend | src/bonus/hashmap.ts:148-149 | Appending a new key's pair to its bucket and counting it keeps the invariant for the updated map. |
| HashMap.ConsistentRemove | src/bonus/hashmap.ts:208-213 | Splicing out the key's pair and decrementing size keeps the invariant for the map without the key. |
| HashMap.LookupAgrees | src/bonus/hashmap.ts:158-181 | Under the invariant, the key's bucket holds its pair exactly when the map has the key, with the map's value. |
| HashMap.KeysOfContents | src/bonus/hashmap.ts:248-258 | The keys listed bucket by bucket number `size` and are exactly the map's keys. |
| HashMap.EntriesOfContents | src/bonus/hashmap.ts:278-288 | The entries listed bucket by bucket number `size` and are exactly the map's key/value pairs. |
| HashMap.KeysOf | src/bonus/hashmap.ts:248-258 | Entry i is the key of pair i. |
| HashMap.ValuesOf | src/bonus/hashmap.ts:263-273 | Entry i is the value of pair i. |
| HashMap.EntriesOf | src/bonus/hashmap.ts:278-288 | Entry i is (key, value) of pair i, so entries[i] == (keys[i], values[i]). |
| HashMap.SimpleHashMap.constructor | src/bonus/hashmap.ts:87-96 | `capacity` empty buckets, size 0, the empty map. The capacity is a constant field: there is no resize. |
| HashMap.SimpleHashMap.Default | src/bonus/hashmap.ts:87 | The same with the default capacity 16. |
| HashMap.SimpleHashMap.Hash | src/bonus/hashmap.ts:107-121 | The loop computes `BucketIndex`, in [0, capacity) and determined by the key. |
| HashMap.SimpleHashMap.Set | src/bonus/hashmap.ts:127-152 | The map gets `key := value`. The size grows by one exactly when the key was absent. Only the key's bucket changes: its pair is overwritten in place, or the pair is appended. |
| HashMap.SimpleHashMap.Get | src/bonus/hashmap.ts:158-182 | The stored value, or None when the key is absent. |
| HashMap.SimpleHashMap.Has | src/bonus/hashmap.ts:187-189 | True exactly when the key is stored. |
| HashMap.SimpleHashMap.Delete | src/bonus/hashmap.ts:195-218 | True exactly when the key was stored. The map loses the key and the size drops by one exactly then. Only the key's bucket changes, losing that one pair. |
| HashMap.SimpleHashMap.GetSize | src/bonus/hashmap.ts:223-225 | The number of stored keys. |
| HashMap.SimpleHashMap.IsEmpty | src/bonus/hashmap.ts:230-232 | True exactly when no key is stored. |
| HashMap.SimpleHashMap.Clear | src/bonus/hashmap.ts:237-243 | Every bucket becomes empty, the size 0 and the map empty. |
| HashMap.SimpleHashMap.Keys | src/bonus/hashmap.ts:248-258 | The keys bucket by bucket in index order: `size` of them, exactly the stored keys. |
| HashMap.SimpleHashMap.Values | src/bonus/hashmap.ts:263-273 | The values bucket by bucket in index order, `size` of them. |
| HashMap.SimpleHashMap.Entries | src/bonus/hashmap.ts:278-288 | The pairs bucket by bucket in index order: `size` of them, exactly the stored key/value pairs. |
| HashMap.ContaPasso | src/bonus/hashmap.ts:360-363 | `get(palavra) \|\| 0` followed by `set(palavra, atual + 1)` extends a correct word count by one word. |
| HashMap.ContarPalavras | src/bonus/hashmap.ts:355-363 | After the loop the map holds, for every word of the text and no other, its number of occurrences. |
| MainScript.Node.constructor | src/main.ts:11-14 | A node holds its value and no successor. |
| MainScript.LinkedList.constructor | src/main.ts:26-29 | An empty list with `length` 0. |
| MainScript.LinkedList.Append | src/main.ts:32-46 | As written: the value is linked at the tail and the chain still ends at `tail`, whose `next` is null. `length` grows only when the list was non-empty, so it stays the number of values minus one. |
| MainScript.LinkedList.AppendCounted | src/main.ts:32-46 | Corrected: the same linking, with `length` counting every value. |
| MainScript.LinkedList.Size | src/main.ts:49-51 | The counter: values minus one under `append`, the number of values under the corrected append. |
| MainScript.LinkedList.Get | src/main.ts:54-63 | The first node holding the value, or null exactly when no node does. The list is not changed. |
| MainScript.FromValues | src/main.ts:32-46 | A list built by `append` alone holds the values in order, with `length` one less than their number. |
| MainScript.FromValuesCounted | src/main.ts:32-46 | With the corrected append, `length` is their number. |
| MainScript.SizeAfterOneAppend | src/main.ts:36-40 | One append of 7 to a new list: `get(7)` finds it, yet `size()` is 0. |
| MainScript.SizeAfterOneAppendCounted | src/main.ts:36-45 | With the corrected append, `size()` is 1. |
| MainScript.Hash | src/main.ts:68-70 | JavaScript's `value % size`: None (NaN) exactly for size 0. Otherwise it is value minus size times the truncated quotient, smaller than size in magnitude, with the sign of value. |
| MainScript.HashBucket | src/main.ts:68-70 | For value >= 0 and size > 0 the result is a bucket index in [0, size), equal to the floored remainder. |
| MainScript.HashNegative | src/main.ts:68-70 | For -7 and 3 the result is -1, where the floored remainder is 2. |
| MainScript.HashOfSample | src/main.ts:93-94 | The sample value 23983434 goes to bucket 4 of 10. |
| MainScript.Programa | src/main.ts:73-107 | With batches of 1000 values in [0, 1000) in the ten lists, the sample value is appended to list 4. The lookup returns the node just appended: a new node at the end of the chain, holding the sample. That list's `size()` is 1000, one short of the 1001 values it holds. |

## Left out

- Console output, timing and string rendering: `toString`, `debug`, the
  `console.log` calls inside the hash map's operations, and `quickSortVisual`
  with `particionarVisual`.
- `forEach` of the linked list and of the hash map: its only effect is the
  caller's callback. `map` and `filter` are modelled over the elements they
  visit.
- Built-in default comparators: the tree's `<` on any `T` and the `String()`
  comparison of `quickSortComComparacao`. The tree uses the natural order of
  `int`; the quicksort variant takes `compare` as a parameter.
- The hash map's `String(key)` conversion: keys are strings. Character codes
  are Dafny `char` values; UTF-16 surrogate pairs are not split.
- Hash map values that are `undefined`: `has` would answer false for them.
  The model has no `undefined` value.
- A capacity that is not a positive integer: the model's constructor requires
  a positive capacity, where JavaScript would throw a RangeError or produce NaN
  bucket indices.
- IEEE-754 `number` arithmetic and `Math.random()`: numbers are integers, and
  the random values of `main` are the `lotes` parameter of
  `MainScript.Programa`, integers in [0, 1000), the range of
  `Math.random() * 1000` without its fractions.
- The numbers inside the thrown error messages: every error carries a fixed
  text.
- The remaining demo and driver functions. These are the hash map's
  `exemploBasico`, `exemploCache`, `exemploObjetosComplexos`,
  `comparacaoPerformance` and `executarTodosExemplos`, `comparacaoBSTvsArray`,
  `exemploBSTStrings`, `demonstrarBigO` and `compararPerformance`. They
  print, time, or work on strings and objects.
- The quicksort demos on strings and on product objects: arrays are of `int`.
- The native `.sort()` demonstrations, the Timsort commentary and the
  print-only complexity examples (`exemploO1`, `espacoConstante`,
  `exemploConstantes`, `exemploTermoDominante`, `exemploEntradasDiferentes`).
- BigO.FibonacciOtimizado: the shared `Map` is threaded through as a value
  (passed in and handed back) rather than mutated in place.
- BigO.EncontrarDuplicatasLento and BigO.EncontrarDuplicatasRapido: both
  results are fixed as sets without repetition, not as sequences. The order
  is not stated: the slow version lists values by their first occurrence, the
  fast one by their second.
- HashMap.SimpleHashMap.Values: it states the order and the count of the
  values, not for each value which key holds it (`Entries` states that).
- Bst.BinarySearchTree.Insert and Bst.BinarySearchTree.Remove: nodes are
  immutable values, so the in-place rewriting of `left`, `right` and `value`
  becomes a new tree in the same shape. Sharing between trees is not modelled
  because each tree owns its nodes.

## Findings

| source | as written | input that shows it | evidently intended | confidence | as-written member | corrected member |
|---|---|---|---|---|---|---|
| src/bonus/big-o-notation.ts:438-453 | `somaParesLento` adds `array[i]` from inside the loop over `j > i`, which never runs for the last index. | [2] gives 0 | the sum of all even cells, as `somaParesRapido` computes | not executed | BigO.SomaParesLento, BigO.SomaParesLentoDiverge | BigO.SomaParesRapido |
| src/bonus/big-o-notation.ts:350-359 | `resultado.concat(...)` returns a new array that is discarded, so the result is always []. | [[1]] gives [] | the arrays laid end to end, as `solucaoMelhor` builds | not executed | BigO.ArmadilhaMetodosArray, BigO.ArmadilhaDiverge | BigO.SolucaoMelhor |
| src/main.ts:36-40 | `append` on an empty list returns before `length++`, so `length` stays one below the number of values. | one `append(7)` on a new list, then `size()` gives 0 | `length` counts every appended value | not executed | MainScript.LinkedList.Append, MainScript.SizeAfterOneAppend | MainScript.LinkedList.AppendCounted, MainScript.SizeAfterOneAppendCounted |
