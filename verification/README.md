# Singly linked list of programmers.js, modelled in Dafny

The repository holds a small blog application and, in `programmers.js`, a
teaching implementation of a singly linked list. This project models that
list: the `Node` class (a payload `data` and a `nextNode` link) and the
`LinkedList` class (a head pointer `firstNode` and a counter `listSize`)
with its operations `add`, `get`, `set`, `remove` and `size`. It also models
the driver at the end of the file.

Object references are made explicit. A node lives at an address of a heap,
which is a finite map from addresses to node records. A pointer is either
`Null` or `Ref(addr)`, and `new Node(data)` allocates an unused address.
Every operation takes a list value and returns the list it leaves behind.
So "the list after the call" is the result, and `get` leaves the list alone
by construction.

- `nodes.dfy` (module `Nodes`): pointers, nodes, the heap, the node accessors and allocation.
- `chains.dfy` (module `Chains`): the chain of addresses reached by following links.
  `IsChain` says what a well-formed chain is: every node allocated, each node
  linking to the next, the last to `Null`, and no address twice, so no cycle.
  `Chain` computes the chain by walking the links. It returns `None` for a
  cycle or a dangling link. The two are proved to agree in both directions.
  The module also proves the two relinkings `remove` performs.
- `linked_list.dfy` (module `LinkedLists`): the list.
  - `Valid` is the representation invariant: the links from `firstNode` form a chain and `listSize` is its length.
  - `Contents` is the abstract sequence of payloads along that chain.
  - Each operation is specified against `Contents`, and against `Repr`, the sequence of node addresses.
- `scenario.dfy` (module `Scenario`): the driver's read-back loops and the whole driver run.

A detail of the code that the model keeps: `get` and `set` walk `index`
links with `for (i = 0; i < index; i++)`. A negative index therefore runs
the loop zero times and reads or overwrites the head. Both operations are
specified for any `index < size()` on a non-empty list, with `Reached(index)`
(0 for a negative index) as the position they reach. `remove` has no such
case: a negative index leaves `frontNode` null and faults. So `remove`
requires `0 <= index < size()`.

## Model

| member | source | states |
|---|---|---|
| `Nodes.NewNode` | programmers.js:3-6 | a new node carries the given payload and a null `nextNode` |
| `Nodes.UpdateData` | programmers.js:8-10 | `updateData` replaces the payload and keeps the link, as read back through `getData`/`getNextNode` |
| `Nodes.SetNextNode` | programmers.js:16-18 | `setNextNode` redirects the link and keeps the payload |
| `Nodes.FieldRoundTrips` | programmers.js:8-22 | writing back what a getter returned changes nothing, and the two setters commute |
| `Nodes.FreshAddress` | programmers.js:34 | allocation returns an address that no existing node occupies |
| `Chains.Chain` | programmers.js:39-42 | when following `nextNode` from a pointer ends, the result is an acyclic, null-terminated chain of allocated nodes |
| `Chains.ChainCharacterization` | programmers.js:39-42 | following the links yields `s` exactly when `s` is a well-formed chain from that pointer (both directions) |
| `Chains.ChainUnique` | programmers.js:39-42 | at most one well-formed chain starts at a given pointer |
| `Chains.SelfLoopHasNoChain` | programmers.js:40-42 | a node linking to itself is a cycle and starts no chain |
| `Chains.UnlinkHead` | programmers.js:60-61 | moving the head to its successor leaves the chain minus its first node |
| `Chains.UnlinkAfter` | programmers.js:63-69 | linking the predecessor of position k to the successor of the node at k removes exactly that node, and the chain stays acyclic and null-terminated |
| `Chains.DataOfWithout` | programmers.js:59-73 | removing a node from a chain removes its payload from the payload sequence at the same position |
| `LinkedLists.Repr` | programmers.js:36-46 | a valid list's nodes form a chain from `firstNode` whose length is `listSize` |
| `LinkedLists.Empty` | programmers.js:27-30 | a new list is valid, with a null `firstNode`, empty contents and size 0 |
| `LinkedLists.Size` | programmers.js:85-87 | `size()` of a valid list is the number of stored elements |
| `LinkedLists.Walk` | programmers.js:51-54 | following `index` links from the head reaches the node at position `index` (the head for a negative index) |
| `LinkedLists.Get` | programmers.js:50-56 | `get(i)` returns the i-th element in insertion order |
| `LinkedLists.Set` | programmers.js:76-82 | `set(i, d)` makes the contents `old[i := d]` and keeps the nodes, their order, the head and the size |
| `LinkedLists.Add` | programmers.js:33-47 | `add(x)` makes the contents `old + [x]` and the size grows by one; earlier elements keep their indices and nodes; the new node is freshly allocated |
| `LinkedLists.Remove` | programmers.js:59-73 | `remove(i)` makes the contents `old[..i] + old[i+1..]` and the size shrinks by one; later elements shift down by one; the removed node leaves the chain; `remove(0)` makes the second node the head |
| `Scenario.ReadAll` | programmers.js:97-99 | reading indices 0 to size()-1 with `get` yields the contents in order |
| `Scenario.Driver` | programmers.js:91-106 | the driver reads 10, 20, 30, then 25, 30, and ends with size 2 |

Each operation is paired with an independent reference: the abstract
sequence `Contents`. `Valid`, which `Chain` characterises through
`ChainCharacterization`, is the invariant that every operation preserves.

## Left out

- `greenstar-front/src/router/index.js`, `greenstar-front/src/main.js` and `main.js`: a static route table, application bootstrap and a view literal. They hold no logic of their own, and route matching happens inside a library that is not part of this model.
- Printing: the driver's `console.log` calls are replaced by returning the values read.
- Out-of-range indices: the source dereferences `null` and faults. The model states the fault-free inputs as preconditions instead of modelling the runtime error.
- In-place mutation: a JavaScript list is changed through shared references. The model returns the new list value, so aliasing between list objects is not modelled.
- Garbage collection: a node unlinked by `remove` stays in the heap map, unreachable, and is never reclaimed.
- JavaScript numbers: indices are modelled as mathematical integers. Fractional, `NaN` or very large indices are not modelled, and neither is the loss of exactness of `listSize` beyond 2^53.
