/**
 Chains of nodes: the sequence of addresses visited by following `nextNode`
 links from a starting pointer until the absent link.

 `IsChain` says declaratively what a well-formed chain is (every node
 allocated, each node linking to the next one, the last one to `Null`, no
 address visited twice); `Chain` computes the chain by walking the links and
 reports `None` for a cycle or a dangling link. The two agree exactly
 (`ChainCharacterization`).
 */
module Chains {
  import opened Nodes

  datatype Option<T> = None | Some(value: T)

  /** The pointer that designates the start of `s`. */
  function Head(s: seq<nat>): Ptr
  {
    if |s| == 0 then Null else Ref(s[0])
  }

  /** The link the i-th node of `s` must hold. */
  function Successor(s: seq<nat>, i: nat): Ptr
    requires i < |s|
  {
    if i + 1 < |s| then Ref(s[i + 1]) else Null
  }

  /** `s` is the acyclic, null-terminated chain reached from `first`. */
  ghost predicate IsChain<T>(heap: Heap<T>, first: Ptr, s: seq<nat>)
  {
    && first == Head(s)
    && (forall i :: 0 <= i < |s| ==> s[i] in heap && heap[s[i]].nextNode == Successor(s, i))
    && (forall i, j :: 0 <= i < j < |s| ==> s[i] != s[j])
  }

  /** Follows the links from `p`, never revisiting an address outside
      `unvisited`; `None` when the walk meets a visited or unallocated node. */
  function ChainFrom<T>(heap: Heap<T>, p: Ptr, unvisited: set<nat>): Option<seq<nat>>
    decreases unvisited
  {
    match p
    case Null => Some([])
    case Ref(a) =>
      if a !in unvisited || a !in heap then None
      else
        match ChainFrom(heap, heap[a].nextNode, unvisited - {a})
        case None => None
        case Some(rest) => Some([a] + rest)
  }

  lemma {:induction false} ChainFromSound<T>(heap: Heap<T>, p: Ptr, unvisited: set<nat>)
    requires ChainFrom(heap, p, unvisited).Some?
    ensures IsChain(heap, p, ChainFrom(heap, p, unvisited).value)
    ensures forall i :: 0 <= i < |ChainFrom(heap, p, unvisited).value| ==>
              ChainFrom(heap, p, unvisited).value[i] in unvisited
    decreases unvisited
  {
    match p
    case Null =>
    case Ref(a) =>
      var next := heap[a].nextNode;
      ChainFromSound(heap, next, unvisited - {a});
      var rest := ChainFrom(heap, next, unvisited - {a}).value;
      var s := [a] + rest;
      assert ChainFrom(heap, p, unvisited).value == s;
      forall i | 0 <= i < |s|
        ensures s[i] in heap && heap[s[i]].nextNode == Successor(s, i)
      {
        if i > 0 {
          assert s[i] == rest[i - 1];
          assert Successor(s, i) == Successor(rest, i - 1);
        }
      }
      forall i, j | 0 <= i < j < |s|
        ensures s[i] != s[j]
      {
        assert s[j] == rest[j - 1];
        if i > 0 {
          assert s[i] == rest[i - 1];
        }
      }
  }

  lemma {:induction false} ChainFromComplete<T>(heap: Heap<T>, p: Ptr, s: seq<nat>, unvisited: set<nat>)
    requires IsChain(heap, p, s)
    requires forall i :: 0 <= i < |s| ==> s[i] in unvisited
    ensures ChainFrom(heap, p, unvisited) == Some(s)
    decreases |s|
  {
    if |s| > 0 {
      var a := s[0];
      var rest := s[1..];
      assert heap[a].nextNode == Head(rest);
      forall i | 0 <= i < |rest|
        ensures rest[i] in heap && heap[rest[i]].nextNode == Successor(rest, i)
      {
        assert rest[i] == s[i + 1];
        assert Successor(rest, i) == Successor(s, i + 1);
      }
      forall i | 0 <= i < |rest|
        ensures rest[i] in unvisited - {a}
      {
        assert rest[i] == s[i + 1];
      }
      ChainFromComplete(heap, heap[a].nextNode, rest, unvisited - {a});
      assert [a] + rest == s;
    }
  }

  /** The chain reached from `first`, if the links from `first` form one. */
  function Chain<T>(heap: Heap<T>, first: Ptr): (r: Option<seq<nat>>)
    ensures r.Some? ==> IsChain(heap, first, r.value)
  {
    var r := ChainFrom(heap, first, heap.Keys);
    if r.Some? then ChainFromSound(heap, first, heap.Keys); r else r
  }

  /** Walking the links finds exactly the well-formed chain, and finds one
      exactly when there is one. */
  lemma ChainCharacterization<T>(heap: Heap<T>, first: Ptr, s: seq<nat>)
    ensures Chain(heap, first) == Some(s) <==> IsChain(heap, first, s)
  {
    if IsChain(heap, first, s) {
      ChainFromComplete(heap, first, s, heap.Keys);
    }
  }

  /** A well-formed chain from a given pointer is unique. */
  lemma ChainUnique<T>(heap: Heap<T>, first: Ptr, s: seq<nat>, t: seq<nat>)
    requires IsChain(heap, first, s) && IsChain(heap, first, t)
    ensures s == t
  {
    ChainCharacterization(heap, first, s);
    ChainCharacterization(heap, first, t);
  }

  /** A node that links back to itself is a cycle: no chain starts at it. */
  lemma SelfLoopHasNoChain<T>(heap: Heap<T>, a: nat)
    requires a in heap && heap[a].nextNode == Ref(a)
    ensures Chain(heap, Ref(a)) == None
  {
  }

  /** Dropping the head of a chain leaves the chain that starts at the head's
      successor. */
  lemma UnlinkHead<T>(heap: Heap<T>, s: seq<nat>)
    requires IsChain(heap, Head(s), s) && 0 < |s|
    ensures IsChain(heap, heap[s[0]].nextNode, s[1..])
  {
  }

  /** `s` with position `k` taken out. */
  function Without<X>(s: seq<X>, k: nat): seq<X>
    requires k < |s|
  {
    s[..k] + s[k + 1..]
  }

  /** Removing position `k` from a sequence without repetitions leaves one
      without repetitions. */
  lemma DistinctWithout(s: seq<nat>, k: nat)
    requires k < |s|
    requires forall i, j :: 0 <= i < j < |s| ==> s[i] != s[j]
    ensures forall i, j :: 0 <= i < j < |s| - 1 ==> Without(s, k)[i] != Without(s, k)[j]
  {
  }

  /** Linking the node before position `k` to the successor of the node at
      `k` removes exactly that node from the chain. */
  lemma {:induction false} UnlinkAfter<T>(heap: Heap<T>, first: Ptr, s: seq<nat>, k: nat)
    requires IsChain(heap, first, s) && 0 < k < |s|
    ensures IsChain(heap[s[k - 1] := SetNextNode(heap[s[k - 1]], heap[s[k]].nextNode)],
                    first, Without(s, k))
  {
    var heap' := heap[s[k - 1] := SetNextNode(heap[s[k - 1]], heap[s[k]].nextNode)];
    var s' := Without(s, k);
    DistinctWithout(s, k);
    assert s'[0] == s[0];
    forall i | 0 <= i < |s'|
      ensures s'[i] in heap' && heap'[s'[i]].nextNode == Successor(s', i)
    {
      if i < k - 1 {
        assert s'[i] == s[i] && s'[i + 1] == s[i + 1];
        assert s[i] != s[k - 1];
      } else if i == k - 1 {
        assert s'[i] == s[k - 1];
        if k + 1 < |s| {
          assert s'[k] == s[k + 1];
        }
      } else {
        assert s'[i] == s[i + 1];
        assert s[i + 1] != s[k - 1];
        if i + 1 < |s'| {
          assert s'[i + 1] == s[i + 2];
        }
      }
    }
  }

  /** The payloads along a chain, in chain order. */
  function DataOf<T>(heap: Heap<T>, s: seq<nat>): seq<T>
    requires forall i :: 0 <= i < |s| ==> s[i] in heap
  {
    seq(|s|, i requires 0 <= i < |s| => GetData(heap[s[i]]))
  }

  /** The payloads along a chain only depend on the payloads of its nodes. */
  lemma DataOfFrame<T>(heap: Heap<T>, heap': Heap<T>, s: seq<nat>)
    requires forall i :: 0 <= i < |s| ==> s[i] in heap && s[i] in heap' && heap'[s[i]].data == heap[s[i]].data
    ensures DataOf(heap', s) == DataOf(heap, s)
  {
  }

  /** Taking a node out of a chain takes its payload out of the payloads. */
  lemma DataOfWithout<T>(heap: Heap<T>, s: seq<nat>, k: nat)
    requires forall i :: 0 <= i < |s| ==> s[i] in heap
    requires k < |s|
    ensures forall i :: 0 <= i < |s| - 1 ==> Without(s, k)[i] in heap
    ensures DataOf(heap, Without(s, k)) == Without(DataOf(heap, s), k)
  {
  }
}
