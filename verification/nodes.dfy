/**
 The node of a singly linked list and the store the nodes live in.

 A JavaScript object reference is modelled as an address into an explicit
 heap, a finite map from addresses to node records; `null` is the pointer
 `Null`. Allocating a node (`new Node(data)`) picks an address the heap does
 not use yet.
 */
module Nodes {

  /** A reference to a node, or the absent link. */
  datatype Ptr = Null | Ref(addr: nat)

  /** A node: its payload and the link to the next node of the chain. */
  datatype Node<T> = Node(data: T, nextNode: Ptr)

  /** The store of all allocated nodes, keyed by address. */
  type Heap<T> = map<nat, Node<T>>

  /** A fresh node holds its payload and does not link anywhere yet. */
  function NewNode<T>(data: T): (n: Node<T>)
    ensures GetData(n) == data
    ensures GetNextNode(n) == Null
  {
    Node(data, Null)
  }

  /** Replaces the payload; the link is kept. */
  function UpdateData<T>(n: Node<T>, data: T): (n': Node<T>)
    ensures GetData(n') == data
    ensures GetNextNode(n') == GetNextNode(n)
  {
    n.(data := data)
  }

  function GetData<T>(n: Node<T>): T
  {
    n.data
  }

  /** Redirects the link; the payload is kept. */
  function SetNextNode<T>(n: Node<T>, next: Ptr): (n': Node<T>)
    ensures GetNextNode(n') == next
    ensures GetData(n') == GetData(n)
  {
    n.(nextNode := next)
  }

  function GetNextNode<T>(n: Node<T>): Ptr
  {
    n.nextNode
  }

  /** Setting a field and reading it back gives what was set, and the two
      setters do not disturb each other's field. */
  lemma FieldRoundTrips<T>(n: Node<T>, data: T, next: Ptr)
    ensures UpdateData(n, GetData(n)) == n
    ensures SetNextNode(n, GetNextNode(n)) == n
    ensures UpdateData(SetNextNode(n, next), data) == SetNextNode(UpdateData(n, data), next)
  {
  }

  /** Allocation: an address no node of the heap occupies (one past the
      largest address in use). */
  method FreshAddress<T>(heap: Heap<T>) returns (a: nat)
    ensures a !in heap
    ensures forall k :: k in heap ==> k < a
  {
    a := 0;
    var todo := heap.Keys;
    while todo != {}
      invariant todo <= heap.Keys
      invariant forall k :: k in heap && k !in todo ==> k < a
      decreases todo
    {
      var k :| k in todo;
      if a <= k {
        a := k + 1;
      }
      todo := todo - {k};
    }
  }
}
