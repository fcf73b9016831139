/** The entry script's small linked list, with a head and a tail pointer and a
    `length` counter, and the remainder hash it pairs with. As in the
    other lists, the ghost state `nodes` is the chain of nodes from `head`
    and `Contents` the values they hold; `Valid()` ties the pointers to
    them. `append` leaves `length` one short once the list is non-empty:
    `Append` keeps that behaviour, `AppendCounted` is the intended one. */
module MainScript {
  import opened Wrappers
  import ListasLigadas

  /** `Node`: a number and the next node. */
  class Node {
    var value: int
    var next: Node?

    constructor (value: int)
      ensures this.value == value && next == null
    {
      this.value := value;
      next := null;
    }
  }

  /** `LinkedList`. */
  class LinkedList {
    var length: int
    var head: Node?
    var tail: Node?
    ghost var nodes: seq<Node>
    ghost var Contents: seq<int>
    ghost var Repr: set<object>

    /** The chain from `head` is `nodes`, without repetition, ending at
        `tail`, whose `next` is null; node `i` holds `Contents[i]`. */
    ghost predicate Valid()
      reads this, Repr
    {
      && this in Repr
      && (forall i :: 0 <= i < |nodes| ==> nodes[i] in Repr)
      && |nodes| == |Contents|
      && head == (if nodes == [] then null else nodes[0])
      && tail == (if nodes == [] then null else nodes[|nodes| - 1])
      && (forall i :: 0 <= i < |nodes| - 1 ==> nodes[i].next == nodes[i + 1])
      && (nodes != [] ==> nodes[|nodes| - 1].next == null)
      && (forall i :: 0 <= i < |nodes| ==> nodes[i].value == Contents[i])
      && (forall i, j :: 0 <= i < j < |nodes| ==> nodes[i] != nodes[j])
    }

    /** What `length` holds when only `append` is used: the number of
        values, less one once there is one. */
    ghost predicate CountsAsWritten()
      reads this
    {
      length == if Contents == [] then 0 else |Contents| - 1
    }

    /** What `length` is meant to hold: the number of values. */
    ghost predicate CountsValues()
      reads this
    {
      length == |Contents|
    }

    /** `new LinkedList()`: no nodes, `length` 0. */
    constructor ()
      ensures Valid() && fresh(Repr) && Contents == [] && length == 0
      ensures CountsAsWritten() && CountsValues()
    {
      length := 0;
      head := null;
      tail := null;
      nodes := [];
      Contents := [];
      Repr := {this};
    }

    /** `append`, as written: on an empty list head and tail become the new
        node and the method returns before `length++`; otherwise the node is
        linked after the tail, becomes the tail, and `length` goes up. */
    method Append(value: int)
      requires Valid()
      modifies Repr
      ensures Valid() && fresh(Repr - old(Repr))
      ensures Contents == old(Contents) + [value]
      ensures length == if old(Contents) == [] then old(length) else old(length) + 1
      ensures old(CountsAsWritten()) ==> CountsAsWritten()
    {
      var newNode := new Node(value);
      if head == null {
        head := newNode;
        tail := newNode;
        nodes := [newNode];
        Contents := [value];
        Repr := Repr + {newNode};
        return;
      }
      tail.next := newNode;
      tail := newNode;
      length := length + 1;
      nodes := nodes + [newNode];
      Contents := Contents + [value];
      Repr := Repr + {newNode};
    }

    /** `append` with the count the class intends: `length` goes up on both
        paths. */
    method AppendCounted(value: int)
      requires Valid()
      modifies Repr
      ensures Valid() && fresh(Repr - old(Repr))
      ensures Contents == old(Contents) + [value]
      ensures length == old(length) + 1
      ensures old(CountsValues()) ==> CountsValues()
    {
      var newNode := new Node(value);
      if head == null {
        head := newNode;
        tail := newNode;
      } else {
        tail.next := newNode;
        tail := newNode;
      }
      length := length + 1;
      nodes := nodes + [newNode];
      Contents := Contents + [value];
      Repr := Repr + {newNode};
    }

    /** `size`: the counter. */
    method Size() returns (n: int)
      requires Valid()
      ensures n == length
      ensures CountsAsWritten() ==> n == if Contents == [] then 0 else |Contents| - 1
      ensures CountsValues() ==> n == |Contents|
    {
      n := length;
    }

    /** `get`: walks from `head` while the node's value differs; the first
        node holding `value`, or null when there is none. */
    method Get(value: int) returns (r: Node?)
      requires Valid()
      ensures r == null <==> value !in Contents
      ensures r != null ==> r == nodes[ListasLigadas.IndexOf(Contents, value)] && r.value == value
    {
      var currentNode := head;
      ghost var k := 0;
      while currentNode != null && currentNode.value != value
        invariant 0 <= k <= |nodes|
        invariant currentNode == if k < |nodes| then nodes[k] else null
        invariant value !in Contents[..k]
        decreases |nodes| - k
      {
        assert Contents[..k + 1] == Contents[..k] + [Contents[k]];
        currentNode := currentNode.next;
        k := k + 1;
      }
      if currentNode == null {
        assert Contents[..k] == Contents;
      } else {
        ListasLigadas.RemoveFirstAt(Contents, value, k);
      }
      r := currentNode;
    }
  }

  /** A list built by `append` alone from `values`, in order. */
  method FromValues(values: seq<int>) returns (list: LinkedList)
    ensures list.Valid() && fresh(list.Repr) && list.Contents == values
    ensures list.length == if values == [] then 0 else |values| - 1
  {
    list := new LinkedList();
    for i := 0 to |values|
      invariant list.Valid() && fresh(list.Repr)
      invariant list.Contents == values[..i] && list.CountsAsWritten()
    {
      list.Append(values[i]);
      assert values[..i + 1] == values[..i] + [values[i]];
    }
    assert values[..|values|] == values;
  }

  /** A list built by `AppendCounted` alone: `length` counts every value. */
  method FromValuesCounted(values: seq<int>) returns (list: LinkedList)
    ensures list.Valid() && fresh(list.Repr) && list.Contents == values
    ensures list.length == |values|
  {
    list := new LinkedList();
    for i := 0 to |values|
      invariant list.Valid() && fresh(list.Repr)
      invariant list.Contents == values[..i] && list.CountsValues()
    {
      list.AppendCounted(values[i]);
      assert values[..i + 1] == values[..i] + [values[i]];
    }
    assert values[..|values|] == values;
  }

  /** One `append` on a new list: `get` finds the value, yet `size` is 0. */
  method SizeAfterOneAppend() returns (n: int, found: bool)
    ensures n == 0 && found
  {
    var list := new LinkedList();
    list.Append(7);
    n := list.Size();
    var node := list.Get(7);
    found := node != null;
  }

  /** The same with `AppendCounted`: `size` is 1. */
  method SizeAfterOneAppendCounted() returns (n: int, found: bool)
    ensures n == 1 && found
  {
    var list := new LinkedList();
    list.AppendCounted(7);
    n := list.Size();
    var node := list.Get(7);
    found := node != null;
  }

  function Abs(x: int): nat {
    if x < 0 then -x else x
  }

  /** The quotient JavaScript's `%` pairs with its remainder: `value / size`
      truncated toward zero. */
  function TruncatedQuotient(value: int, size: int): int
    requires size != 0
  {
    var q := Abs(value) / Abs(size);
    if (value < 0) == (size < 0) then q else -q
  }

  /** `hash(value, size)`: `value % size` with the JavaScript remainder: what
      is left of `value` after taking away `size` times the truncated
      quotient, smaller than `size` in magnitude and of the sign of `value`;
      a zero `size` gives NaN, here `None`. */
  function Hash(value: int, size: int): (r: Option<int>)
    ensures r.None? <==> size == 0
    ensures r.Some? ==> value == size * TruncatedQuotient(value, size) + r.value
    ensures r.Some? ==> Abs(r.value) < Abs(size)
    ensures r.Some? ==> (value >= 0 ==> r.value >= 0) && (value <= 0 ==> r.value <= 0)
  {
    if size == 0 then None
    else
      var a, b := Abs(value), Abs(size);
      var m := a % b;
      ProductSigns(a, b, value, size);
      Some(if value < 0 then -m else m)
  }

  /** `size * TruncatedQuotient(value, size)` is `Abs(size) * (Abs(value) /
      Abs(size))` with the sign of `value`. */
  lemma ProductSigns(a: int, b: int, value: int, size: int)
    requires size != 0 && a == Abs(value) && b == Abs(size)
    ensures a == b * (a / b) + a % b
    ensures size * TruncatedQuotient(value, size) == if value < 0 then -(b * (a / b)) else b * (a / b)
  {
    var k := a / b;
    if size < 0 {
      assert size == -b;
      if value < 0 {
        assert size * k == -(b * k);
        assert size * -k == b * k;
      } else {
        assert size * -k == b * k;
      }
    }
  }

  /** For the non-negative values and the positive sizes the script uses,
      `hash` picks one of `size` buckets and is the floored remainder. */
  lemma HashBucket(value: int, size: int)
    requires value >= 0 && size > 0
    ensures Hash(value, size).Some? && 0 <= Hash(value, size).value < size
    ensures Hash(value, size).value == value % size
  {
  }

  /** For a negative value the result is negative, where the floored
      remainder would not be. */
  lemma HashNegative()
    ensures Hash(-7, 3) == Some(-1) && -7 % 3 == 2
  {
  }

  /** The bucket the script computes for its sample value: 23983434 % 10. */
  lemma HashOfSample()
    ensures Hash(23983434, 10) == Some(4)
  {
  }

  /** `main`: ten lists, each filled by `append` with a batch of values
      (`Math.random() * 1000` in the script, here the parameter `lotes`),
      then the sample value appended to the list its hash picks and looked
      up there. The batch values lie in [0, 1000), so the sample value is not
      among them and the lookup finds the node just appended: a new node at
      the end of the chain. That list's `size` is the batch length, one short
      of the values it holds. */
  method Programa(lotes: seq<seq<int>>) returns (index: int, found: Node?, tamanho: int)
    requires |lotes| == 10 && forall k :: 0 <= k < 10 ==> |lotes[k]| == 1000
    requires forall k, j :: 0 <= k < 10 && 0 <= j < 1000 ==> 0 <= lotes[k][j] < 1000
    ensures index == 4
    ensures found != null && found.value == 23983434
    ensures found != null && fresh(found) && found.next == null
    ensures tamanho == 1000
  {
    var arr: seq<LinkedList> := [];
    for i := 0 to 10
      invariant |arr| == i
      invariant forall k :: 0 <= k < i ==> arr[k].Valid() && fresh(arr[k].Repr)
      invariant forall k :: 0 <= k < i ==> arr[k].Contents == lotes[k] && arr[k].CountsAsWritten()
    {
      var list := FromValues(lotes[i]);
      arr := arr + [list];
    }
    var value := 23983434;
    HashOfSample();
    index := Hash(value, |arr|).value;
    var linkedList := arr[index];
    linkedList.Append(value);
    assert value !in lotes[index] by {
      forall j | 0 <= j < |lotes[index]| ensures lotes[index][j] != value {
        assert 0 <= lotes[index][j] < 1000;
      }
    }
    assert ListasLigadas.IndexOf(linkedList.Contents, value) == |lotes[index]| by {
      var s := linkedList.Contents;
      assert s == lotes[index] + [value];
      assert s[|lotes[index]|] == value;
    }
    found := linkedList.Get(value);
    tamanho := linkedList.Size();
  }
}
