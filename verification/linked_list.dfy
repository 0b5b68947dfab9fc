/**
 The singly linked list: a head pointer `firstNode` into a heap of nodes and
 a counter `listSize`.

 Every operation takes the list as a value and returns the list it leaves
 behind, so "the list after the call" is the returned value and the list
 passed in is, by construction, unchanged. The abstract view of a list is
 `Contents`, the payloads along the chain from `firstNode`; each operation
 is specified against that sequence.
 */
module LinkedLists {
  import opened Nodes
  import opened Chains

  datatype LinkedList<T> = LinkedList(heap: Heap<T>, firstNode: Ptr, listSize: int)

  /** Representation invariant: the links from `firstNode` form an acyclic,
      null-terminated chain and `listSize` counts its nodes. */
  predicate Valid<T>(l: LinkedList<T>)
  {
    var c := Chain(l.heap, l.firstNode);
    c.Some? && |c.value| == l.listSize
  }

  /** The addresses of the list's nodes, head first. */
  function Repr<T>(l: LinkedList<T>): (s: seq<nat>)
    requires Valid(l)
    ensures IsChain(l.heap, l.firstNode, s)
    ensures |s| == l.listSize
  {
    Chain(l.heap, l.firstNode).value
  }

  /** The stored payloads in list order. */
  function Contents<T>(l: LinkedList<T>): seq<T>
    requires Valid(l)
  {
    DataOf(l.heap, Repr(l))
  }

  /** A list is valid with node sequence `s` as soon as `s` is a chain from
      its head of the recorded length. */
  lemma ValidFromChain<T>(l: LinkedList<T>, s: seq<nat>)
    requires IsChain(l.heap, l.firstNode, s)
    requires |s| == l.listSize
    ensures Valid(l) && Repr(l) == s
  {
    ChainCharacterization(l.heap, l.firstNode, s);
  }

  /** A new list has no first node and size zero. */
  function Empty<T>(): (l: LinkedList<T>)
    ensures Valid(l)
    ensures Contents(l) == []
    ensures l.firstNode == Null && Size(l) == 0
  {
    var l := LinkedList(map[], Null, 0);
    ValidFromChain(l, []);
    l
  }

  /** The recorded size, which is the number of stored elements. */
  function Size<T>(l: LinkedList<T>): (n: int)
    ensures Valid(l) ==> n == |Contents(l)|
  {
    l.listSize
  }

  /** The position `get` and `set` reach: their loops run `index` times, so a
      negative index stops at the head. */
  function Reached(index: int): nat
  {
    if index < 0 then 0 else index
  }

  /** Follows `index` links from the head, as the loops of `get` and `set` do. */
  method Walk<T>(l: LinkedList<T>, index: int) returns (node: Ptr)
    requires Valid(l)
    requires 0 < Size(l) && index < Size(l)
    ensures node == Ref(Repr(l)[Reached(index)])
  {
    ghost var s := Repr(l);
    node := l.firstNode;
    var i := 0;
    while i < index
      invariant 0 <= i <= Reached(index)
      invariant node == Ref(s[i])
    {
      node := GetNextNode(l.heap[node.addr]);
      i := i + 1;
    }
  }

  /** `get(index)`: the element at position `index` (the head for a negative
      index). The list is not changed. */
  method Get<T>(l: LinkedList<T>, index: int) returns (d: T)
    requires Valid(l)
    requires 0 < Size(l) && index < Size(l)
    ensures d == Contents(l)[Reached(index)]
    ensures 0 <= index ==> d == Contents(l)[index]
  {
    var node := Walk(l, index);
    d := GetData(l.heap[node.addr]);
  }

  /** `set(index, data)`: overwrites the element at position `index` (the
      head for a negative index); the nodes, their order and the size stay. */
  method Set<T>(l: LinkedList<T>, index: int, data: T) returns (l': LinkedList<T>)
    requires Valid(l)
    requires 0 < Size(l) && index < Size(l)
    ensures Valid(l')
    ensures Repr(l') == Repr(l) && l'.firstNode == l.firstNode
    ensures Size(l') == Size(l)
    ensures Contents(l') == Contents(l)[Reached(index) := data]
    ensures forall j :: 0 <= j < Size(l) && j != Reached(index) ==> Contents(l')[j] == Contents(l)[j]
  {
    ghost var s := Repr(l);
    var node := Walk(l, index);
    var heap := l.heap[node.addr := UpdateData(l.heap[node.addr], data)];
    l' := LinkedList(heap, l.firstNode, l.listSize);
    assert IsChain(heap, l.firstNode, s);
    ValidFromChain(l', s);
    assert Contents(l') == Contents(l)[Reached(index) := data];
  }

  /** `add(data)`: a new node holding `data` is linked after the last node. */
  method Add<T>(l: LinkedList<T>, data: T) returns (l': LinkedList<T>)
    requires Valid(l)
    ensures Valid(l')
    ensures Size(l') == Size(l) + 1
    ensures Contents(l') == Contents(l) + [data]
    ensures forall j :: 0 <= j < Size(l) ==> Contents(l')[j] == Contents(l)[j]
    ensures Repr(l')[..Size(l)] == Repr(l) && Repr(l')[Size(l)] !in l.heap
  {
    ghost var s := Repr(l);
    var a := FreshAddress(l.heap);
    var heap := l.heap[a := NewNode(data)];
    var first := l.firstNode;
    if first == Null {
      first := Ref(a);
    } else {
      var node := first;
      ghost var i := 0;
      while GetNextNode(heap[node.addr]) != Null
        invariant 0 <= i < |s| && node == Ref(s[i])
        decreases |s| - i
      {
        node := GetNextNode(heap[node.addr]);
        i := i + 1;
      }
      heap := heap[node.addr := SetNextNode(heap[node.addr], Ref(a))];
    }
    l' := LinkedList(heap, first, l.listSize + 1);
    ghost var s' := s + [a];
    assert IsChain(heap, first, s') by {
      forall i | 0 <= i < |s'|
        ensures s'[i] in heap && heap[s'[i]].nextNode == Successor(s', i)
      {
        if i + 1 < |s'| {
          assert Successor(s', i) == Successor(s, i) || i + 1 == |s|;
        }
      }
    }
    ValidFromChain(l', s');
    assert Contents(l') == Contents(l) + [data];
  }

  /** `remove(index)`: unlinks the node at position `index`; the head case
      moves `firstNode` to the second node, otherwise the predecessor is
      linked to the removed node's successor. */
  method Remove<T>(l: LinkedList<T>, index: int) returns (l': LinkedList<T>)
    requires Valid(l)
    requires 0 <= index < Size(l)
    ensures Valid(l')
    ensures Size(l') == Size(l) - 1
    ensures Contents(l') == Contents(l)[..index] + Contents(l)[index + 1..]
    ensures forall j :: index <= j < Size(l') ==> Contents(l')[j] == Contents(l)[j + 1]
    ensures Repr(l') == Repr(l)[..index] + Repr(l)[index + 1..]
    ensures Repr(l)[index] !in Repr(l')
    ensures index == 0 ==> l'.firstNode == (if Size(l) > 1 then Ref(Repr(l)[1]) else Null)
  {
    ghost var s := Repr(l);
    ghost var s' := Without(s, index);
    var heap := l.heap;
    var first := l.firstNode;
    if index == 0 {
      first := GetNextNode(heap[first.addr]);
    } else {
      var frontNode := Null;
      var deleteNode := first;
      var i := 0;
      while i < index
        invariant 0 <= i <= index
        invariant deleteNode == Ref(s[i])
        invariant 0 < i ==> frontNode == Ref(s[i - 1])
      {
        frontNode := deleteNode;
        deleteNode := GetNextNode(heap[deleteNode.addr]);
        i := i + 1;
      }
      heap := heap[frontNode.addr := SetNextNode(heap[frontNode.addr], GetNextNode(heap[deleteNode.addr]))];
    }
    l' := LinkedList(heap, first, l.listSize - 1);
    if index == 0 {
      assert s' == s[1..];
      UnlinkHead(l.heap, s);
    } else {
      UnlinkAfter(l.heap, first, s, index);
    }
    ValidFromChain(l', s');
    DataOfWithout(l.heap, s, index);
    DataOfFrame(l.heap, heap, s');
  }
}
