/** Singly and doubly linked lists, and the stack and queue built on the
    singly linked one. Every list keeps, as ghost state, the chain of its
    nodes (`nodes`) and the values they hold in order (`Contents`, what
    `paraArray()` returns); `Valid()` ties the pointers and the `tamanho`
    counter to them. Thrown errors are `Err` results. */
module ListasLigadas {
  import opened Wrappers

  // ---------------------------------------------------------------------
  // The sequences the operations produce
  // ---------------------------------------------------------------------

  /** `s` with `d` inserted before position `p`. */
  function InsertAt<T>(s: seq<T>, p: int, d: T): (r: seq<T>)
    requires 0 <= p <= |s|
    ensures |r| == |s| + 1 && r[p] == d
    ensures forall k :: 0 <= k < p ==> r[k] == s[k]
    ensures forall k :: p < k < |r| ==> r[k] == s[k - 1]
  {
    s[..p] + [d] + s[p..]
  }

  /** `s` without the cell at position `p`. */
  function RemoveAt<T>(s: seq<T>, p: int): (r: seq<T>)
    requires 0 <= p < |s|
    ensures |r| == |s| - 1
    ensures forall k :: 0 <= k < p ==> r[k] == s[k]
    ensures forall k :: p <= k < |r| ==> r[k] == s[k + 1]
  {
    s[..p] + s[p + 1..]
  }

  /** Removing what was inserted gives the sequence back, and inserting what
      was removed, where it was, does too. */
  lemma {:induction false} InsertAtRemoveAt<T>(s: seq<T>, p: int, d: T)
    requires 0 <= p <= |s|
    ensures RemoveAt(InsertAt(s, p, d), p) == s
    ensures p < |s| ==> InsertAt(RemoveAt(s, p), p, s[p]) == s
  {
    assert RemoveAt(InsertAt(s, p, d), p) == s;
    if p < |s| {
      assert InsertAt(RemoveAt(s, p), p, s[p]) == s;
    }
  }

  /** The position of the first `v` in `s`, or -1 when there is none. */
  function IndexOf<T(==)>(s: seq<T>, v: T): (r: int)
    ensures -1 <= r < |s|
    ensures r == -1 <==> v !in s
    ensures r >= 0 ==> s[r] == v && v !in s[..r]
  {
    if s == [] then -1
    else if s[0] == v then 0
    else
      var k := IndexOf(s[1..], v);
      assert s[1..][..if k < 0 then 0 else k] == s[1..if k < 0 then 1 else k + 1];
      if k == -1 then -1 else k + 1
  }

  /** `s` without its first `v`; `s` itself when `v` does not occur. */
  function RemoveFirst<T(==)>(s: seq<T>, v: T): (r: seq<T>)
    ensures v !in s ==> r == s
  {
    if s == [] then []
    else if s[0] == v then s[1..]
    else [s[0]] + RemoveFirst(s[1..], v)
  }

  /** Removing the first `v` removes the cell `IndexOf(s, v)`. */
  lemma {:induction false} RemoveFirstAt<T>(s: seq<T>, v: T, k: int)
    requires 0 <= k < |s| && s[k] == v && v !in s[..k]
    ensures RemoveFirst(s, v) == RemoveAt(s, k) && k == IndexOf(s, v)
  {
    if k > 0 {
      assert s[0] == s[..k][0];
      assert s[1..][..k - 1] == s[1..k];
      assert v !in s[1..][..k - 1] by {
        assert forall x :: x in s[1..k] ==> x in s[..k];
      }
      RemoveFirstAt(s[1..], v, k - 1);
      assert RemoveAt(s, k) == [s[0]] + RemoveAt(s[1..], k - 1);
    }
  }

  /** `s` backwards. */
  function Reversed<T>(s: seq<T>): (r: seq<T>)
    ensures |r| == |s|
    ensures forall k :: 0 <= k < |s| ==> r[k] == s[|s| - 1 - k]
  {
    if s == [] then [] else Reversed(s[1..]) + [s[0]]
  }

  lemma {:induction false} ReversedTwice<T>(s: seq<T>)
    ensures Reversed(Reversed(s)) == s
  {
    assert forall k :: 0 <= k < |s| ==> Reversed(Reversed(s))[k] == s[k];
  }

  /** The cells of `s[..n]` whose value and position pass `keep`, in order:
      what `filter` appends to the new list. */
  function Filtered<T>(s: seq<T>, keep: (T, int) -> bool, n: int): (r: seq<T>)
    requires 0 <= n <= |s|
    ensures |r| <= n
  {
    if n == 0 then []
    else Filtered(s, keep, n - 1) + (if keep(s[n - 1], n - 1) then [s[n - 1]] else [])
  }

  /** Everything `filter` keeps comes from the list and passes the test at
      its position. */
  lemma {:induction false} FilteredKeeps<T>(s: seq<T>, keep: (T, int) -> bool, n: int, x: T)
    requires 0 <= n <= |s| && x in Filtered(s, keep, n)
    ensures exists k :: 0 <= k < n && s[k] == x && keep(x, k)
  {
    if n > 0 {
      if x in Filtered(s, keep, n - 1) {
        FilteredKeeps(s, keep, n - 1, x);
      } else {
        assert x == s[n - 1] && keep(s[n - 1], n - 1);
      }
    }
  }

  /** A test every cell passes keeps the whole list; one no cell passes
      keeps nothing. */
  lemma {:induction false} FilteredAllOrNone<T>(s: seq<T>, keep: (T, int) -> bool, n: int)
    requires 0 <= n <= |s|
    ensures (forall k :: 0 <= k < n ==> keep(s[k], k)) ==> Filtered(s, keep, n) == s[..n]
    ensures (forall k :: 0 <= k < n ==> !keep(s[k], k)) ==> Filtered(s, keep, n) == []
  {
    if n > 0 {
      FilteredAllOrNone(s, keep, n - 1);
      assert s[..n] == s[..n - 1] + [s[n - 1]];
    }
  }

  // ---------------------------------------------------------------------
  // ListaLigada
  // ---------------------------------------------------------------------

  /** `No`: a value and the next node. */
  class No<T> {
    var dado: T
    var proximo: No?<T>

    constructor (dado: T)
      ensures this.dado == dado && proximo == null
    {
      this.dado := dado;
      proximo := null;
    }
  }

  /** `ListaLigada`: a singly linked list with a head pointer and a size
      counter. */
  class ListaLigada<T(==)> {
    var cabeca: No?<T>
    var tamanho: int
    ghost var nodes: seq<No<T>>
    ghost var Contents: seq<T>
    ghost var Repr: set<object>

    /** The chain from `cabeca` is `nodes`, ending in null, with no node
        twice; node `i` holds `Contents[i]`; `tamanho` counts the nodes. */
    ghost predicate Valid()
      reads this, Repr
    {
      && this in Repr
      && (forall i :: 0 <= i < |nodes| ==> nodes[i] in Repr)
      && |nodes| == |Contents| == tamanho
      && cabeca == (if nodes == [] then null else nodes[0])
      && (forall i :: 0 <= i < |nodes| - 1 ==> nodes[i].proximo == nodes[i + 1])
      && (nodes != [] ==> nodes[|nodes| - 1].proximo == null)
      && (forall i :: 0 <= i < |nodes| ==> nodes[i].dado == Contents[i])
      && (forall i, j :: 0 <= i < j < |nodes| ==> nodes[i] != nodes[j])
    }

    constructor ()
      ensures Valid() && fresh(Repr) && Contents == []
    {
      cabeca := null;
      tamanho := 0;
      nodes := [];
      Contents := [];
      Repr := {this};
    }

    /** `inserirNoInicio`. */
    method InserirNoInicio(dado: T)
      requires Valid()
      modifies this
      ensures Valid() && fresh(Repr - old(Repr))
      ensures Contents == [dado] + old(Contents)
    {
      var novoNo := new No(dado);
      novoNo.proximo := cabeca;
      cabeca := novoNo;
      tamanho := tamanho + 1;
      nodes := [novoNo] + nodes;
      Contents := [dado] + Contents;
      Repr := Repr + {novoNo};
    }

    /** `inserirNoFim`: walks to the last node and links a new one after it. */
    method InserirNoFim(dado: T)
      requires Valid()
      modifies Repr
      ensures Valid() && fresh(Repr - old(Repr))
      ensures Contents == old(Contents) + [dado]
    {
      var novoNo := new No(dado);
      if cabeca == null {
        cabeca := novoNo;
      } else {
        var atual := cabeca;
        ghost var k := 0;
        while atual.proximo != null
          invariant 0 <= k < |nodes| && atual == nodes[k]
          invariant atual.proximo == if k + 1 < |nodes| then nodes[k + 1] else null
          decreases |nodes| - k
        {
          atual := atual.proximo;
          k := k + 1;
        }
        atual.proximo := novoNo;
      }
      tamanho := tamanho + 1;
      nodes := nodes + [novoNo];
      Contents := Contents + [dado];
      Repr := Repr + {novoNo};
    }

    /** `inserirNaPosicao`: fails unless 0 <= posicao <= tamanho; otherwise
        the new value ends up at `posicao`. */
    method InserirNaPosicao(dado: T, posicao: int) returns (o: Outcome)
      requires Valid()
      modifies Repr
      ensures Valid() && fresh(Repr - old(Repr))
      ensures o.Pass? <==> 0 <= posicao <= |old(Contents)|
      ensures o.Pass? ==> Contents == InsertAt(old(Contents), posicao, dado)
      ensures o.Fail? ==> Contents == old(Contents)
    {
      if posicao < 0 || posicao > tamanho {
        return Fail("Posição inválida");
      }
      if posicao == 0 {
        InserirNoInicio(dado);
        assert [dado] + old(Contents) == InsertAt(old(Contents), 0, dado);
        return Pass;
      }
      var novoNo := new No(dado);
      var atual := cabeca;
      for i := 0 to posicao - 1
        invariant atual == nodes[i]
      {
        atual := atual.proximo;
      }
      LigarApos(atual, novoNo, posicao - 1);
      o := Pass;
    }

    /** The linking step of `inserirNaPosicao`: the fresh `novoNo` goes
        between `atual`, the node at position `k`, and its successor, and
        the counter goes up. */
    method LigarApos(atual: No<T>, novoNo: No<T>, ghost k: int)
      requires Valid() && 0 <= k < |nodes| && atual == nodes[k] && novoNo !in Repr
      modifies Repr, novoNo
      ensures Valid() && Repr == old(Repr) + {novoNo}
      ensures Contents == InsertAt(old(Contents), k + 1, old(novoNo.dado))
    {
      assert atual.proximo == if k + 1 < |nodes| then nodes[k + 1] else null;
      ghost var antes := nodes;
      novoNo.proximo := atual.proximo;
      atual.proximo := novoNo;
      tamanho := tamanho + 1;
      nodes := InsertAt(nodes, k + 1, novoNo);
      Contents := InsertAt(Contents, k + 1, novoNo.dado);
      Repr := Repr + {novoNo};
      forall i, j | 0 <= i < j < |nodes| ensures nodes[i] != nodes[j] {
        if j == k + 1 {
          assert nodes[i] in old(Repr);
        } else if i == k + 1 {
          assert nodes[j] in old(Repr);
        } else {
          assert nodes[i] == antes[if i < k + 1 then i else i - 1];
          assert nodes[j] == antes[if j < k + 1 then j else j - 1];
        }
      }
    }

    /** `removerDoInicio`: None on an empty list. */
    method RemoverDoInicio() returns (r: Option<T>)
      requires Valid()
      modifies this
      ensures Valid() && Repr == old(Repr)
      ensures old(Contents) == [] ==> r == None && Contents == old(Contents)
      ensures old(Contents) != [] ==> r == Some(old(Contents)[0]) && Contents == old(Contents)[1..]
    {
      if cabeca == null {
        return None;
      }
      var dadoRemovido := cabeca.dado;
      cabeca := cabeca.proximo;
      tamanho := tamanho - 1;
      nodes := nodes[1..];
      Contents := Contents[1..];
      r := Some(dadoRemovido);
    }

    /** `removerDoFim`: walks to the last-but-one node and unlinks the last. */
    method RemoverDoFim() returns (r: Option<T>)
      requires Valid()
      modifies Repr
      ensures Valid() && Repr == old(Repr)
      ensures old(Contents) == [] ==> r == None && Contents == old(Contents)
      ensures old(Contents) != [] ==>
        r == Some(old(Contents)[|old(Contents)| - 1]) && Contents == old(Contents)[..|old(Contents)| - 1]
    {
      if cabeca == null {
        return None;
      }
      assert |nodes| > 1 ==> cabeca.proximo == nodes[1];
      if cabeca.proximo == null {
        var dadoRemovido := cabeca.dado;
        cabeca := null;
        tamanho := tamanho - 1;
        nodes := [];
        Contents := [];
        return Some(dadoRemovido);
      }
      var atual := cabeca;
      ghost var k := 0;
      while atual.proximo.proximo != null
        invariant 0 <= k < |nodes| - 1 && atual == nodes[k] && atual.proximo == nodes[k + 1]
        invariant atual.proximo.proximo == if k + 2 < |nodes| then nodes[k + 2] else null
        decreases |nodes| - k
      {
        atual := atual.proximo;
        k := k + 1;
      }
      var dadoRemovido := atual.proximo.dado;
      atual.proximo := null;
      tamanho := tamanho - 1;
      nodes := nodes[..|nodes| - 1];
      Contents := Contents[..|Contents| - 1];
      r := Some(dadoRemovido);
    }

    /** `removerDaPosicao`: fails unless 0 <= posicao < tamanho; otherwise
        unlinks that node and returns its value. */
    method RemoverDaPosicao(posicao: int) returns (r: Result<T>)
      requires Valid()
      modifies Repr
      ensures Valid() && Repr == old(Repr)
      ensures r.Ok? <==> 0 <= posicao < |old(Contents)|
      ensures r.Ok? ==> r.value == old(Contents)[posicao] && Contents == RemoveAt(old(Contents), posicao)
      ensures r.Err? ==> Contents == old(Contents)
    {
      if posicao < 0 || posicao >= tamanho {
        return Err("Posição inválida");
      }
      if posicao == 0 {
        var removido := RemoverDoInicio();
        return Ok(removido.value);
      }
      var atual := cabeca;
      for i := 0 to posicao - 1
        invariant atual == nodes[i]
      {
        atual := atual.proximo;
      }
      assert atual.proximo == nodes[posicao];
      var dadoRemovido := atual.proximo.dado;
      DesligarProximo(atual, posicao - 1);
      r := Ok(dadoRemovido);
    }

    /** The unlinking step shared by `removerDaPosicao` and
        `removerPorValor`: `atual`, the node at position `k`, skips its
        successor, and the counter goes down. */
    method DesligarProximo(atual: No<T>, ghost k: int)
      requires Valid() && 0 <= k < |nodes| - 1 && atual == nodes[k]
      modifies Repr
      ensures Valid() && Repr == old(Repr)
      ensures Contents == RemoveAt(old(Contents), k + 1)
    {
      assert atual.proximo == nodes[k + 1];
      assert nodes[k + 1].proximo == if k + 2 < |nodes| then nodes[k + 2] else null;
      atual.proximo := atual.proximo.proximo;
      tamanho := tamanho - 1;
      nodes := RemoveAt(nodes, k + 1);
      Contents := RemoveAt(Contents, k + 1);
    }

    /** `removerPorValor`: unlinks the first node holding `valor`; false,
        changing nothing, when there is none. */
    method RemoverPorValor(valor: T) returns (removido: bool)
      requires Valid()
      modifies Repr
      ensures Valid() && Repr == old(Repr)
      ensures removido <==> valor in old(Contents)
      ensures Contents == RemoveFirst(old(Contents), valor)
    {
      if cabeca == null {
        return false;
      }
      if cabeca.dado == valor {
        var _ := RemoverDoInicio();
        return true;
      }
      var atual := cabeca;
      ghost var k := 0;
      while atual.proximo != null
        invariant Valid() && unchanged(this) && unchanged(Repr)
        invariant 0 <= k < |nodes| && atual == nodes[k]
        invariant atual.proximo == if k + 1 < |nodes| then nodes[k + 1] else null
        invariant valor !in Contents[..k + 1]
        decreases |nodes| - k
      {
        if atual.proximo.dado == valor {
          RemoveFirstAt(Contents, valor, k + 1);
          DesligarProximo(atual, k);
          return true;
        }
        atual := atual.proximo;
        k := k + 1;
      }
      assert Contents[..k + 1] == Contents;
      return false;
    }

    /** `buscar`: the position of the first node holding `valor`, or -1. */
    method Buscar(valor: T) returns (posicao: int)
      requires Valid()
      ensures posicao == IndexOf(Contents, valor)
    {
      var atual := cabeca;
      posicao := 0;
      while atual != null
        invariant 0 <= posicao <= |nodes|
        invariant atual == if posicao < |nodes| then nodes[posicao] else null
        invariant valor !in Contents[..posicao]
        decreases |nodes| - posicao
      {
        if atual.dado == valor {
          RemoveFirstAt(Contents, valor, posicao);
          return;
        }
        atual := atual.proximo;
        posicao := posicao + 1;
      }
      assert Contents[..posicao] == Contents;
      posicao := -1;
    }

    /** `obterPorPosicao`: fails unless 0 <= posicao < tamanho. */
    method ObterPorPosicao(posicao: int) returns (r: Result<T>)
      requires Valid()
      ensures r.Ok? <==> 0 <= posicao < |Contents|
      ensures r.Ok? ==> r.value == Contents[posicao]
    {
      if posicao < 0 || posicao >= tamanho {
        return Err("Posição inválida");
      }
      var atual := cabeca;
      for i := 0 to posicao
        invariant atual == nodes[i]
      {
        atual := atual.proximo;
      }
      r := Ok(atual.dado);
    }

    /** `contem`: whether `buscar` finds the value. */
    method Contem(valor: T) returns (b: bool)
      requires Valid()
      ensures b <==> valor in Contents
    {
      var posicao := Buscar(valor);
      b := posicao != -1;
    }

    /** `obterTamanho`. */
    method ObterTamanho() returns (n: int)
      requires Valid()
      ensures n == |Contents|
    {
      n := tamanho;
    }

    /** `estaVazia`: tested on the counter, which counts the nodes. */
    method EstaVazia() returns (b: bool)
      requires Valid()
      ensures b <==> Contents == []
    {
      b := tamanho == 0;
    }

    /** `limpar`: drops every node. */
    method Limpar()
      requires Valid()
      modifies this
      ensures Valid() && Repr == old(Repr) && Contents == []
    {
      cabeca := null;
      tamanho := 0;
      nodes := [];
      Contents := [];
    }

    /** `paraArray`: the values from head to tail. */
    method ParaArray() returns (resultado: seq<T>)
      requires Valid()
      ensures resultado == Contents
    {
      resultado := [];
      var atual := cabeca;
      while atual != null
        invariant 0 <= |resultado| <= |nodes|
        invariant atual == if |resultado| < |nodes| then nodes[|resultado|] else null
        invariant resultado == Contents[..|resultado|]
        decreases |nodes| - |resultado|
      {
        resultado := resultado + [atual.dado];
        atual := atual.proximo;
      }
    }

    /** `inverter`: turns every `proximo` link around, in place. */
    method Inverter()
      requires Valid()
      modifies Repr
      ensures Valid() && Repr == old(Repr)
      ensures Contents == Reversed(old(Contents)) && tamanho == old(tamanho)
    {
      var anterior: No?<T> := null;
      var atual := cabeca;
      ghost var k := 0;
      while atual != null
        invariant unchanged(this)
        invariant 0 <= k <= |nodes|
        invariant atual == if k < |nodes| then nodes[k] else null
        invariant anterior == if k > 0 then nodes[k - 1] else null
        invariant k > 0 ==> nodes[0].proximo == null
        invariant forall i :: 0 < i < k ==> nodes[i].proximo == nodes[i - 1]
        invariant forall i :: k <= i < |nodes| - 1 ==> nodes[i].proximo == nodes[i + 1]
        invariant k < |nodes| ==> nodes[|nodes| - 1].proximo == null
        invariant forall i :: 0 <= i < |nodes| ==> nodes[i].dado == Contents[i]
        decreases |nodes| - k
      {
        var proximo := atual.proximo;
        atual.proximo := anterior;
        anterior := atual;
        atual := proximo;
        k := k + 1;
      }
      cabeca := anterior;
      nodes := Reversed(nodes);
      Contents := Reversed(Contents);
    }

    /** `map`: the callback applied to every value and its position. */
    method Map<U>(callback: (T, int) -> U) returns (resultado: seq<U>)
      requires Valid()
      ensures |resultado| == |Contents|
      ensures forall i :: 0 <= i < |resultado| ==> resultado[i] == callback(Contents[i], i)
    {
      resultado := [];
      var atual := cabeca;
      while atual != null
        invariant 0 <= |resultado| <= |nodes|
        invariant atual == if |resultado| < |nodes| then nodes[|resultado|] else null
        invariant forall i :: 0 <= i < |resultado| ==> resultado[i] == callback(Contents[i], i)
        decreases |nodes| - |resultado|
      {
        resultado := resultado + [callback(atual.dado, |resultado|)];
        atual := atual.proximo;
      }
    }

    /** `filter`: a new list of the values that pass the callback at their
        position, in order; this list is left as it is. */
    method Filter(callback: (T, int) -> bool) returns (novaLista: ListaLigada<T>)
      requires Valid()
      ensures fresh(novaLista.Repr) && novaLista.Valid()
      ensures novaLista.Contents == Filtered(Contents, callback, |Contents|)
    {
      novaLista := new ListaLigada();
      var atual := cabeca;
      var indice := 0;
      while atual != null
        invariant 0 <= indice <= |nodes|
        invariant atual == if indice < |nodes| then nodes[indice] else null
        invariant fresh(novaLista.Repr) && novaLista.Valid()
        invariant novaLista.Contents == Filtered(Contents, callback, indice)
        decreases |nodes| - indice
      {
        if callback(atual.dado, indice) {
          novaLista.InserirNoFim(atual.dado);
        }
        atual := atual.proximo;
        indice := indice + 1;
      }
    }
  }

  // ---------------------------------------------------------------------
  // ListaDuplamenteLigada
  // ---------------------------------------------------------------------

  /** `NoDuplo`: a value, the next node and the previous one. */
  class NoDuplo<T> {
    var dado: T
    var proximo: NoDuplo?<T>
    var anterior: NoDuplo?<T>

    constructor (dado: T)
      ensures this.dado == dado && proximo == null && anterior == null
    {
      this.dado := dado;
      proximo := null;
      anterior := null;
    }
  }

  /** `ListaDuplamenteLigada`: a doubly linked list with head and tail
      pointers and a size counter. */
  class ListaDuplamenteLigada<T> {
    var cabeca: NoDuplo?<T>
    var cauda: NoDuplo?<T>
    var tamanho: int
    ghost var nodes: seq<NoDuplo<T>>
    ghost var Contents: seq<T>
    ghost var Repr: set<object>

    /** The chain from `cabeca` along `proximo` is `nodes` and ends at
        `cauda`; every `anterior` link points back along it; node `i` holds
        `Contents[i]`; `tamanho` counts the nodes. */
    ghost predicate Valid()
      reads this, Repr
    {
      && this in Repr
      && (forall i :: 0 <= i < |nodes| ==> nodes[i] in Repr)
      && |nodes| == |Contents| == tamanho
      && cabeca == (if nodes == [] then null else nodes[0])
      && cauda == (if nodes == [] then null else nodes[|nodes| - 1])
      && (forall i :: 0 <= i < |nodes| - 1 ==> nodes[i].proximo == nodes[i + 1])
      && (forall i :: 0 < i < |nodes| ==> nodes[i].anterior == nodes[i - 1])
      && (nodes != [] ==> nodes[|nodes| - 1].proximo == null && nodes[0].anterior == null)
      && (forall i :: 0 <= i < |nodes| ==> nodes[i].dado == Contents[i])
      && (forall i, j :: 0 <= i < j < |nodes| ==> nodes[i] != nodes[j])
    }

    /** Head and tail are null together, exactly when the list is empty. */
    lemma CabecaCaudaNulas()
      requires Valid()
      ensures (cabeca == null) == (cauda == null) == (Contents == [])
    {
    }

    constructor ()
      ensures Valid() && fresh(Repr) && Contents == []
    {
      cabeca := null;
      cauda := null;
      tamanho := 0;
      nodes := [];
      Contents := [];
      Repr := {this};
    }

    /** `inserirNoInicio`. */
    method InserirNoInicio(dado: T)
      requires Valid()
      modifies Repr
      ensures Valid() && fresh(Repr - old(Repr))
      ensures Contents == [dado] + old(Contents)
    {
      var novoNo := new NoDuplo(dado);
      if cabeca == null {
        cabeca := novoNo;
        cauda := novoNo;
      } else {
        novoNo.proximo := cabeca;
        cabeca.anterior := novoNo;
        cabeca := novoNo;
      }
      tamanho := tamanho + 1;
      nodes := [novoNo] + nodes;
      Contents := [dado] + Contents;
      Repr := Repr + {novoNo};
    }

    /** `inserirNoFim`: links a new node after the tail, with no walk. */
    method InserirNoFim(dado: T)
      requires Valid()
      modifies Repr
      ensures Valid() && fresh(Repr - old(Repr))
      ensures Contents == old(Contents) + [dado]
    {
      var novoNo := new NoDuplo(dado);
      if cauda == null {
        cabeca := novoNo;
        cauda := novoNo;
      } else {
        cauda.proximo := novoNo;
        novoNo.anterior := cauda;
        cauda := novoNo;
      }
      tamanho := tamanho + 1;
      nodes := nodes + [novoNo];
      Contents := Contents + [dado];
      Repr := Repr + {novoNo};
    }

    /** `removerDoInicio`: None on an empty list. */
    method RemoverDoInicio() returns (r: Option<T>)
      requires Valid()
      modifies Repr
      ensures Valid() && Repr == old(Repr)
      ensures old(Contents) == [] ==> r == None && Contents == old(Contents)
      ensures old(Contents) != [] ==> r == Some(old(Contents)[0]) && Contents == old(Contents)[1..]
    {
      if cabeca == null {
        return None;
      }
      var dadoRemovido := cabeca.dado;
      if cabeca == cauda {
        cabeca := null;
        cauda := null;
      } else {
        assert cabeca.proximo == nodes[1];
        cabeca := cabeca.proximo;
        cabeca.anterior := null;
      }
      tamanho := tamanho - 1;
      nodes := nodes[1..];
      Contents := Contents[1..];
      r := Some(dadoRemovido);
    }

    /** `removerDoFim`: steps the tail back along `anterior`; None on an
        empty list. */
    method RemoverDoFim() returns (r: Option<T>)
      requires Valid()
      modifies Repr
      ensures Valid() && Repr == old(Repr)
      ensures old(Contents) == [] ==> r == None && Contents == old(Contents)
      ensures old(Contents) != [] ==>
        r == Some(old(Contents)[|old(Contents)| - 1]) && Contents == old(Contents)[..|old(Contents)| - 1]
    {
      if cauda == null {
        return None;
      }
      var dadoRemovido := cauda.dado;
      if cabeca == cauda {
        cabeca := null;
        cauda := null;
      } else {
        assert cauda.anterior == nodes[|nodes| - 2];
        cauda := cauda.anterior;
        cauda.proximo := null;
      }
      tamanho := tamanho - 1;
      nodes := nodes[..|nodes| - 1];
      Contents := Contents[..|Contents| - 1];
      r := Some(dadoRemovido);
    }

    /** `obterTamanho`. */
    method ObterTamanho() returns (n: int)
      requires Valid()
      ensures n == |Contents|
    {
      n := tamanho;
    }
  }

  // ---------------------------------------------------------------------
  // Pilha and Fila, on top of ListaLigada
  // ---------------------------------------------------------------------

  /** `Pilha`: a stack whose top is the head of its list. */
  class Pilha<T(==)> {
    var lista: ListaLigada<T>
    ghost var Repr: set<object>

    ghost predicate Valid()
      reads this, Repr
    {
      && this in Repr && lista in Repr && lista.Repr <= Repr && this !in lista.Repr
      && lista.Valid()
    }

    /** The items, top first. */
    ghost function Contents(): seq<T>
      reads this, lista
    {
      lista.Contents
    }

    constructor ()
      ensures Valid() && fresh(Repr) && Contents() == []
    {
      lista := new ListaLigada();
      new;
      Repr := {this} + lista.Repr;
    }

    /** `push`: the item goes on top. */
    method Push(item: T)
      requires Valid()
      modifies Repr
      ensures Valid() && fresh(Repr - old(Repr))
      ensures Contents() == [item] + old(Contents())
    {
      lista.InserirNoInicio(item);
      Repr := Repr + lista.Repr;
    }

    /** `pop`: the last item pushed, or None on an empty stack. */
    method Pop() returns (r: Option<T>)
      requires Valid()
      modifies Repr
      ensures Valid() && Repr == old(Repr)
      ensures old(Contents()) == [] ==> r == None && Contents() == old(Contents())
      ensures old(Contents()) != [] ==> r == Some(old(Contents())[0]) && Contents() == old(Contents())[1..]
    {
      r := lista.RemoverDoInicio();
    }

    /** `peek`: the top item, or None; nothing changes. */
    method Peek() returns (r: Option<T>)
      requires Valid()
      ensures r == if Contents() == [] then None else Some(Contents()[0])
    {
      var vazia := lista.EstaVazia();
      if vazia {
        return None;
      }
      var topo := lista.ObterPorPosicao(0);
      r := Some(topo.value);
    }

    /** `isEmpty`. */
    method IsEmpty() returns (b: bool)
      requires Valid()
      ensures b <==> Contents() == []
    {
      b := lista.EstaVazia();
    }

    /** `size`. */
    method Size() returns (n: int)
      requires Valid()
      ensures n == |Contents()|
    {
      n := lista.ObterTamanho();
    }
  }

  /** `Fila`: a queue whose front is the head of its list. */
  class Fila<T(==)> {
    var lista: ListaLigada<T>
    ghost var Repr: set<object>

    ghost predicate Valid()
      reads this, Repr
    {
      && this in Repr && lista in Repr && lista.Repr <= Repr && this !in lista.Repr
      && lista.Valid()
    }

    /** The items, front first. */
    ghost function Contents(): seq<T>
      reads this, lista
    {
      lista.Contents
    }

    constructor ()
      ensures Valid() && fresh(Repr) && Contents() == []
    {
      lista := new ListaLigada();
      new;
      Repr := {this} + lista.Repr;
    }

    /** `enqueue`: the item joins at the back. */
    method Enqueue(item: T)
      requires Valid()
      modifies Repr
      ensures Valid() && fresh(Repr - old(Repr))
      ensures Contents() == old(Contents()) + [item]
    {
      lista.InserirNoFim(item);
      Repr := Repr + lista.Repr;
    }

    /** `dequeue`: the earliest item enqueued, or None on an empty queue. */
    method Dequeue() returns (r: Option<T>)
      requires Valid()
      modifies Repr
      ensures Valid() && Repr == old(Repr)
      ensures old(Contents()) == [] ==> r == None && Contents() == old(Contents())
      ensures old(Contents()) != [] ==> r == Some(old(Contents())[0]) && Contents() == old(Contents())[1..]
    {
      r := lista.RemoverDoInicio();
    }

    /** `front`: the front item, or None; nothing changes. */
    method Front() returns (r: Option<T>)
      requires Valid()
      ensures r == if Contents() == [] then None else Some(Contents()[0])
    {
      var vazia := lista.EstaVazia();
      if vazia {
        return None;
      }
      var frente := lista.ObterPorPosicao(0);
      r := Some(frente.value);
    }

    /** `isEmpty`. */
    method IsEmpty() returns (b: bool)
      requires Valid()
      ensures b <==> Contents() == []
    {
      b := lista.EstaVazia();
    }

    /** `size`. */
    method Size() returns (n: int)
      requires Valid()
      ensures n == |Contents()|
    {
      n := lista.ObterTamanho();
    }
  }

  // ---------------------------------------------------------------------
  // The usage examples
  // ---------------------------------------------------------------------

  /** A fresh list holding `valores`, built with `inserirNoFim`: the
      starting point of the examples below. */
  method ListaDe(valores: seq<int>) returns (lista: ListaLigada<int>)
    ensures fresh(lista.Repr) && lista.Valid() && lista.Contents == valores
  {
    lista := new ListaLigada<int>();
    for k := 0 to |valores|
      invariant fresh(lista.Repr) && lista.Valid() && lista.Contents == valores[..k]
    {
      lista.InserirNoFim(valores[k]);
      assert valores[..k + 1] == valores[..k] + [valores[k]];
    }
    assert valores[..|valores|] == valores;
  }

  /** The insertions of the singly linked list example. */
  method ExemploInsercoes() returns (aposInsercoes: seq<int>, aposPosicao: seq<int>)
    ensures aposInsercoes == [5, 10, 20, 25]
    ensures aposPosicao == [5, 10, 15, 20, 25]
  {
    var lista := new ListaLigada<int>();
    lista.InserirNoInicio(10);
    lista.InserirNoInicio(5);
    lista.InserirNoFim(20);
    lista.InserirNoFim(25);
    aposInsercoes := lista.ParaArray();
    var _ := lista.InserirNaPosicao(15, 2);
    aposPosicao := lista.ParaArray();
  }

  /** The searches of the example, on 5, 10, 15, 20, 25. */
  method ExemploBuscas() returns (posicao15: int, naPosicao1: Result<int>, tem20: bool, tem100: bool)
    ensures posicao15 == 2 && naPosicao1 == Ok(10) && tem20 && !tem100
  {
    var lista := ListaDe([5, 10, 15, 20, 25]);
    posicao15 := lista.Buscar(15);
    naPosicao1 := lista.ObterPorPosicao(1);
    tem20 := lista.Contem(20);
    tem100 := lista.Contem(100);
  }

  /** The removals of the example, on 5, 10, 15, 20, 25. */
  method ExemploRemocoes() returns (doInicio: Option<int>, doFim: Option<int>, aposRemocoes: seq<int>,
                                    sem15: seq<int>)
    ensures doInicio == Some(5) && doFim == Some(25)
    ensures aposRemocoes == [10, 15, 20] && sem15 == [10, 20]
  {
    var lista := ListaDe([5, 10, 15, 20, 25]);
    doInicio := lista.RemoverDoInicio();
    doFim := lista.RemoverDoFim();
    aposRemocoes := lista.ParaArray();
    var _ := lista.RemoverPorValor(15);
    sem15 := lista.ParaArray();
  }

  /** The callbacks of the example: `x => x * 2` and `x => x > 20`. */
  function Dobro(x: int, indice: int): int { x * 2 }

  function MaiorQue20(x: int, indice: int): bool { x > 20 }

  lemma ExemploFiltrado()
    ensures Filtered([10, 20, 30, 40], MaiorQue20, 4) == [30, 40]
  {
    var s := [10, 20, 30, 40];
    assert Filtered(s, MaiorQue20, 2) == [];
    assert Filtered(s, MaiorQue20, 3) == [30];
  }

  /** The functional methods of the example, on 10, 20, 30, 40. */
  method ExemploFuncionais() returns (dobrados: seq<int>, maioresQue20: seq<int>)
    ensures dobrados == [20, 40, 60, 80] && maioresQue20 == [30, 40]
  {
    var lista := ListaDe([10, 20, 30, 40]);
    dobrados := lista.Map(Dobro);
    var maiores := lista.Filter(MaiorQue20);
    ExemploFiltrado();
    maioresQue20 := maiores.ParaArray();
  }

  /** The reversal that ends the example. */
  method ExemploInversao() returns (invertida: seq<int>)
    ensures invertida == [40, 30, 20, 10]
  {
    var lista := ListaDe([10, 20, 30, 40]);
    lista.Inverter();
    invertida := lista.ParaArray();
  }

  /** The doubly linked list example: A and D come off the two ends of
      A, B, C, D. */
  method ExemploListaDupla() returns (doInicio: Option<string>, doFim: Option<string>, tamanhoFinal: int)
    ensures doInicio == Some("A") && doFim == Some("D") && tamanhoFinal == 2
  {
    var listaDupla := new ListaDuplamenteLigada<string>();
    listaDupla.InserirNoInicio("B");
    listaDupla.InserirNoInicio("A");
    listaDupla.InserirNoFim("C");
    listaDupla.InserirNoFim("D");
    doInicio := listaDupla.RemoverDoInicio();
    doFim := listaDupla.RemoverDoFim();
    tamanhoFinal := listaDupla.ObterTamanho();
  }

  /** The stack example: the last of 1, 2, 3 pushed is the first popped. */
  method ExemploPilha() returns (retirado: Option<int>, topo: Option<int>, tamanho: int)
    ensures retirado == Some(3) && topo == Some(2) && tamanho == 2
  {
    var pilha := new Pilha<int>();
    pilha.Push(1);
    pilha.Push(2);
    pilha.Push(3);
    retirado := pilha.Pop();
    topo := pilha.Peek();
    tamanho := pilha.Size();
  }

  /** The queue example: the first of three enqueued is the first out. */
  method ExemploFila() returns (retirado: Option<string>, frente: Option<string>, tamanho: int)
    ensures retirado == Some("primeiro") && frente == Some("segundo") && tamanho == 2
  {
    var fila := new Fila<string>();
    fila.Enqueue("primeiro");
    fila.Enqueue("segundo");
    fila.Enqueue("terceiro");
    retirado := fila.Dequeue();
    frente := fila.Front();
    tamanho := fila.Size();
  }
}
