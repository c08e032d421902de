# Linked containers, modelled in Dafny

This project models the linked containers of a small Python study repository:

- The doubly-linked list, in two copies. `src/doubly_linked_list/doubly_linked_list.py`
  guards its relocation and deletion methods against a None or unattached node.
  `doubly_linked_list/doubly_linked_list.py` has no such guards, and its `delete`
  clears the removed node's links.
- The singly-linked list (`singly_linked_list/singly_linked_list.py`).
- Three stacks, backed by a Python list, a `collections.deque` and the
  singly-linked list.
- Two queues, backed by a list and a deque.

Every container is a Dafny `class` whose methods update its fields in place, as
the Python methods do.

- **Doubly-linked list** (`dll_nodes.dfy`, `dll_guarded.dfy`, `dll_unguarded.dfy`).
  - Nodes are objects with a constant `value` and mutable `prev`/`next`.
  - The list keeps `head`, `tail` and `size`. It also keeps two ghost sequences:
    `nodes`, the chain from head to tail, and `stale`.
  - `stale` holds removed nodes that a walk along `next` from the tail still
    visits. `delete` of the tail leaves the new tail's `next` pointing at the
    removed node, so the walks of `get_max` and `__repr__` reach it.
  - `Valid()` states that `nodes` is a segment of distinct nodes linked both ways
    and that `tail.next` starts the `next`-chain of `stale`. It says nothing of
    `head.prev`, which `delete` of the head leaves pointing at the removed node.
    Each method's contract states `head.prev` instead:
    - it is None after construction, and becomes None after `add_to_head`,
      `remove_head` and a real `move_to_front`;
    - it becomes the removed node after `delete` of the head;
    - every other operation leaves it as it was.
  - Each method's contract gives the new `nodes` and value sequence as a function
    of the old ones (`RemoveAt`, `MoveToFront`, `MoveToEnd` in `splice.dfy`).
    It also states what happens to `stale` and to the links the source leaves
    dangling.
  - The root copy's constructor, `__repr__`, `__len__`, `add_to_*`, `remove_*` and
    `get_max` are the same code as the src copy's. They share one model:
    `doubly_linked_list/doubly_linked_list.py` lines 40-176 and 250-263 match
    src lines 42-179 and 343-356.
  - The root copy's three differing methods are operations on the same class, in
    module `DoublyLinkedUnguarded`.
- **`get_max`** is proved equal to `MaxScan.Max` of the walked values.
  `max_scan.dfy` proves that this is a greatest element. It also proves that
  the strict `<` of the scan cannot be observed: replacing the running maximum
  on ties as well gives the same integer on every input.
- **`__repr__`** is proved equal to `Render.Repr` of the live and stale values.
  `render.dfy` proves that with nothing stale this is `"DLL=["`, the
  `" -> "`-joined `Node(v)` texts, then `"]"`. With stale nodes, each stale
  node's text and `" -> "` follow the `"]"`.
- **Singly-linked list** (`singly_linked.dfy`). `Valid()` states three things:
  `head` is None exactly when `tail` is; the `next` links run through distinct
  nodes from `head` to `tail`; and `tail.next` is None. `remove_tail` walks to
  the predecessor of the tail in a loop, which terminates on the distance left
  to the tail.
- **Stacks and queues** (`stack_list.dfy`, `stack_deque.dfy`, `stack_linked.dfy`,
  `queue_list.dfy`, `queue_deque.dfy`).
  - Each stores its values as a sequence, left end first. `push` appends and
    `enqueue` prepends. `pop`/`dequeue` is `SeqStorage.Pop`: None on empty
    storage, otherwise the rightmost value split off.
  - `seq_storage.dfy` proves the push-then-pop round trip, LIFO order after any
    run of pushes, and FIFO order after any run of enqueues.
  - Values in these containers are `Option<int>`, standing for any Python
    value, None included. A popped None cannot be told apart from "empty", as
    in Python.

## Model

| member | source | states |
|---|---|---|
| `DoublyLinkedGuarded.DoublyLinkedList.constructor` | src/doubly_linked_list/doubly_linked_list.py:42-56 | With no initial list, or an empty one, the list is empty. Otherwise each value is added at the tail in order: the head-to-tail values equal the given list, `size` is its length, nothing is stale, and the head's `prev` is None. |
| `DoublyLinkedGuarded.DoublyLinkedList.Len` | src/doubly_linked_list/doubly_linked_list.py:74-77 | `len` is the number of values held. |
| `DoublyLinkedGuarded.DoublyLinkedList.AddToHead` | src/doubly_linked_list/doubly_linked_list.py:79-105 | A fresh node with `prev` None becomes the head. The values gain `v` in front, `size` grows by one and the shape is kept. On an empty list the new node is also the tail. |
| `DoublyLinkedGuarded.DoublyLinkedList.RemoveHead` | src/doubly_linked_list/doubly_linked_list.py:107-139 | None and no change when empty. Otherwise it returns the first value, the rest keep their order, and the new head's `prev` is None. The removed node's links are left as they were. |
| `DoublyLinkedGuarded.DoublyLinkedList.AddToTail` | src/doubly_linked_list/doubly_linked_list.py:141-157 | A fresh node becomes the tail and the values gain `v` at the end. Linking it from the old tail overwrites any stale `next`, so nothing is stale after. `head.prev` is untouched. |
| `DoublyLinkedGuarded.DoublyLinkedList.RemoveTail` | src/doubly_linked_list/doubly_linked_list.py:159-179 | None and no change when empty. Otherwise it returns the last value, the rest keep their order, nothing is stale, and both links of the removed node are None. The head and its `prev` are kept. |
| `DoublyLinkedGuarded.DoublyLinkedList.MoveToFront` | src/doubly_linked_list/doubly_linked_list.py:181-242 | No change for an empty list, None, an unattached node or the head. Otherwise, for a member node, the nodes and values become `MoveToFront` at its index: that value first, the others in their old order. The moved node is the head, with `prev` None, and `stale` is kept. |
| `DoublyLinkedGuarded.DoublyLinkedList.SpliceToFront` | src/doubly_linked_list/doubly_linked_list.py:209-242 | The splice for a member node at index `i > 0`: the nodes and values become `MoveToFront(old, i)`, the node is the head with `prev` None, and `stale` is kept. |
| `DoublyLinkedGuarded.DoublyLinkedList.TailToFront` | src/doubly_linked_list/doubly_linked_list.py:205-208 | The tail branch (`tail` moves back to the node's predecessor), followed by the relinking before the head at lines 228-242. The tail moves to the front. The result is `MoveToFront(old, i)` with `i` the last index, and the node is the head with `prev` None. What was stale stays stale behind the new tail. |
| `DoublyLinkedGuarded.DoublyLinkedList.MiddleToFront` | src/doubly_linked_list/doubly_linked_list.py:212-242 | A node strictly inside the chain is bypassed and linked in before the head. The result is `MoveToFront(old, i)`, the node is the head with `prev` None, and `stale` is kept. |
| `DoublyLinkedGuarded.DoublyLinkedList.MoveToEnd` | src/doubly_linked_list/doubly_linked_list.py:244-296 | No change for an empty list, None, an unattached node or the tail. Otherwise, for a member node, the result is `MoveToEnd` at its index. The node is the tail, nothing is stale, and the head's `prev` is what the old head's was. |
| `DoublyLinkedGuarded.DoublyLinkedList.SpliceToEnd` | src/doubly_linked_list/doubly_linked_list.py:272-296 | The splice for a member node that is not the tail: the result is `MoveToEnd(old, i)`, the node is the tail, and nothing is stale. The head's `prev` is kept. |
| `DoublyLinkedGuarded.DoublyLinkedList.MiddleToEnd` | src/doubly_linked_list/doubly_linked_list.py:273-296 | A node strictly inside the chain is bypassed and linked in after the tail, whose `next` it overwrites. The result is `MoveToEnd(old, i)` and nothing is stale. The head and its `prev` are kept. |
| `DoublyLinkedGuarded.DoublyLinkedList.HeadToEnd` | src/doubly_linked_list/doubly_linked_list.py:278-296 | The head moves to the end. The result is `MoveToEnd(old, 0)` and nothing is stale. The new head's `prev` is the old head's `prev`, passed on. |
| `DoublyLinkedGuarded.DoublyLinkedList.Delete` | src/doubly_linked_list/doubly_linked_list.py:298-341 | Returns None with no change for an empty list, for None, or for an unattached node when two or more nodes are held. A list of one node is emptied and the argument's value returned, with its links untouched. A member is removed by `RemoveAt` and its value returned; its own links are untouched. After a head delete, `head.prev` is the removed node. Otherwise the head and its `prev` are kept. After a tail delete, `tail.next` is the removed node, which joins `stale`. |
| `DoublyLinkedGuarded.DoublyLinkedList.Unchain` | src/doubly_linked_list/doubly_linked_list.py:321-340 | The unlinking for a member of a chain of two or more: `RemoveAt` of the nodes and values. The links left on the removed node are stated per case: `head.prev` for the head, `tail.next` for the tail. Below the head, the head and its `prev` are kept. |
| `DoublyLinkedGuarded.DoublyLinkedList.DeleteRepaired` | src/doubly_linked_list/doubly_linked_list.py:298-341 | The corrected `delete`: same results and sequence, but the new head's `prev` or new tail's `next` is reset to None. A list with nothing stale keeps nothing stale. Below the head, the head's `prev` is kept. The removed node's own links are kept, as in `Delete`. |
| `DoublyLinkedGuarded.DoublyLinkedList.Seal` | src/doubly_linked_list/doubly_linked_list.py:321-331 | The repair step of `DeleteRepaired`: the link back to a removed head, or on to a removed tail, becomes None, with `nodes` and `head` unchanged. |
| `DoublyLinkedGuarded.DoublyLinkedList.GetMax` | src/doubly_linked_list/doubly_linked_list.py:343-356 | On a non-empty list the result is `Max` of the values walked along `next` from the head. That is the values held followed by the stale values. |
| `DoublyLinkedGuarded.DoublyLinkedList.Repr` | src/doubly_linked_list/doubly_linked_list.py:58-72 | The text is `Render.Repr(values, stale values)`: `"DLL=[]"` when empty, otherwise one `Node(v)` per walked node, followed by `"]"` at the tail and `" -> "` elsewhere. |
| `DoublyLinkedGuarded.StaleTailScenario` | src/doubly_linked_list/doubly_linked_list.py:328-331 | On `[1, 5]`, after `delete(tail)` the list is valid and holds only `[1]`, yet `get_max` returns 5 and the repr is `"DLL=[Node(1)]Node(5) -> "`. |
| `DoublyLinkedGuarded.RepairedTailScenario` | src/doubly_linked_list/doubly_linked_list.py:328-331 | The same steps with the corrected `delete` leave `[1]`, and give 1 and `"DLL=[Node(1)]"`. |
| `DoublyLinkedUnguarded.MoveToFront` | doubly_linked_list/doubly_linked_list.py:178-198 | No guard, so a non-empty list needs a member node. No change when empty or for the head. Otherwise the result is `MoveToFront` at its index, the node is the head with `prev` None, and `stale` is kept. |
| `DoublyLinkedUnguarded.MoveToEnd` | doubly_linked_list/doubly_linked_list.py:200-220 | No guard, so a non-empty list needs a member node. No change when empty or for the tail. Otherwise the result is `MoveToEnd` at its index, the node is the tail, and nothing is stale. The head's `prev` is kept. |
| `DoublyLinkedUnguarded.Delete` | doubly_linked_list/doubly_linked_list.py:222-248 | None when empty. With one node it empties the list and returns the (non-None) argument's value, leaving its links as they were. Otherwise the member is removed by `RemoveAt` and its `next` and `prev` become None. The new head's `prev` or the new tail's `next` still points at it, so after a tail delete `stale` is exactly that node. Below the head, the head and its `prev` are kept. |
| `DoublyLinkedUnguarded.ClearLinks` | doubly_linked_list/doubly_linked_list.py:245 | Clearing a removed node's links keeps the shape. A removed tail becomes the only stale node. |
| `DoublyLinkedNodes.Node.constructor` | src/doubly_linked_list/doubly_linked_list.py:12-27 | A new node holds the given value, with `prev` and `next` None. |
| `DoublyLinkedNodes.Bypass` | src/doubly_linked_list/doubly_linked_list.py:338-340 | Linking an inner node's neighbours to each other leaves a segment of the chain without it. |
| `DoublyLinkedNodes.PutBefore` | src/doubly_linked_list/doubly_linked_list.py:229-242 | Linking a node that is not in a segment before its first node gives a segment that starts with it. |
| `DoublyLinkedNodes.PutAfter` | src/doubly_linked_list/doubly_linked_list.py:286-296 | Linking a node that is not in a segment after its last node gives a segment that ends with it, `next` None. |
| `DoublyLinkedNodes.Behead` | src/doubly_linked_list/doubly_linked_list.py:280-284 | Passing the head's `prev` to its successor leaves the rest of the chain a segment. |
| `DoublyLinkedNodes.WalkStep` | src/doubly_linked_list/doubly_linked_list.py:66-70 | In a valid list, the `k`-th node of a walk along `next` from the head is followed by the next one, or by None after the last. The walk meets the tail exactly at index `size - 1`. |
| `DoublyLinkedNodes.Attached` | src/doubly_linked_list/doubly_linked_list.py:254-256 | In a chain of two or more, every member has a link set, so the "unattached" guard never rejects a member. |
| `DoublyLinkedNodes.ValuesOfRemoveAt` | src/doubly_linked_list/doubly_linked_list.py:298-341 | Removing a node removes its value at the same index. |
| `DoublyLinkedNodes.ValuesOfMoves` | src/doubly_linked_list/doubly_linked_list.py:181-296 | Relocating a node relocates its value the same way. |
| `Splice.MovesIndex` | src/doubly_linked_list/doubly_linked_list.py:181-296 | After `MoveToFront` the moved value is first and the rest is `RemoveAt`. After `MoveToEnd` it is last. |
| `Splice.MovesPermute` | src/doubly_linked_list/doubly_linked_list.py:181-296 | Both relocations are permutations of the values. |
| `Splice.DistinctMoves` | src/doubly_linked_list/doubly_linked_list.py:181-341 | Relocation and removal keep the chain free of repeated nodes. |
| `Splice.MovesInPlace` | src/doubly_linked_list/doubly_linked_list.py:197-199 | Moving the head to the front, or the tail to the end, is the identity. This matches the source's no-op cases. |
| `Splice.RemoveAtIndex` | src/doubly_linked_list/doubly_linked_list.py:298-299 | Deletion preserves the order of the other elements: those before the index stay, those after move down by one. |
| `MaxScan.ScanFromBounds` | src/doubly_linked_list/doubly_linked_list.py:348-354 | The running maximum never decreases, bounds every scanned value, and is either its start or a scanned value. |
| `MaxScan.MaxIsGreatest` | src/doubly_linked_list/doubly_linked_list.py:343-356 | `get_max`'s scan returns an element that no element exceeds. |
| `MaxScan.TieRuleUnobservable` | src/doubly_linked_list/doubly_linked_list.py:351-352 | A scan that also replaces on ties (`<=`) returns the same value as the strict-`<` scan from every start and over every sequence, so with integer values the tie rule has no visible effect. |
| `Render.NatToStringReadsBack` | src/doubly_linked_list/doubly_linked_list.py:32 | The decimal text of a natural number is a non-empty digit string that reads back as the number. |
| `Render.IntToStringReadsBack` | src/doubly_linked_list/doubly_linked_list.py:32 | `str` of an integer is an integer literal (a '-' before digits when negative) that reads back as the integer. |
| `Render.NodeTextReadsBack` | src/doubly_linked_list/doubly_linked_list.py:31-32 | `Node.__repr__` is `"Node("`, an integer literal, `")"`, and the literal reads back as the node's value. |
| `Render.NodeTextInjective` | src/doubly_linked_list/doubly_linked_list.py:31-32 | Nodes with different values have different texts. |
| `Render.ReprClosed` | src/doubly_linked_list/doubly_linked_list.py:58-72 | With nothing stale the repr is `"DLL=[]"` for no values, otherwise `"DLL=["` + the `" -> "`-joined `Node(v)` texts + `"]"`. |
| `Render.ReprWithStale` | src/doubly_linked_list/doubly_linked_list.py:66-68 | With stale nodes, the repr is the clean one followed by each stale node's text and `" -> "`. |
| `Render.PiecesAppend` | src/doubly_linked_list/doubly_linked_list.py:66-68 | The loop's output over a concatenation is the output over each part, with the tail index shifted. |
| `Render.ReprStep` | src/doubly_linked_list/doubly_linked_list.py:67 | One turn of the repr loop appends exactly the visited node's text and its separator. |
| `Render.ReprOne` | src/doubly_linked_list/test_doubly_linked_list.py:23-24 | The repr of the one-element list `[1]` is `"DLL=[Node(1)]"`. |
| `Render.ReprOneStale` | src/doubly_linked_list/doubly_linked_list.py:66-68 | The repr of `[1]` with a removed `5` still linked behind the tail is `"DLL=[Node(1)]Node(5) -> "`. |
| `SinglyLinked.Node.constructor` | singly_linked_list/singly_linked_list.py:9-21 | A new node holds the given value, with `next` None. |
| `SinglyLinked.LinkedList.constructor` | singly_linked_list/singly_linked_list.py:44-50 | A new list is empty, with `head` and `tail` None. |
| `SinglyLinked.LinkedList.AddToHead` | singly_linked_list/singly_linked_list.py:52-78 | A fresh node holding `v` comes first. On an empty list it is also the tail. The three shape facts are kept. |
| `SinglyLinked.LinkedList.AddToTail` | singly_linked_list/singly_linked_list.py:80-105 | A fresh node holding `v` is linked from the old tail and becomes the tail. On an empty list it is also the head. |
| `SinglyLinked.LinkedList.RemoveHead` | singly_linked_list/singly_linked_list.py:107-135 | None and no change when empty. Otherwise the first value, with `head` advanced; `tail` becomes None with the last node. |
| `SinglyLinked.LinkedList.RemoveTail` | singly_linked_list/singly_linked_list.py:137-176 | None and no change when empty. With one node both ends become None. Otherwise the loop finds the tail's predecessor, which becomes the tail with `next` None. The old last value is returned and the rest keep their order. |
| `SeqStorage.Pop` | src/stack/stack_list.py:11-17 | A guarded `pop` gives None with nothing removed on empty storage. Otherwise the storage is exactly what is left followed by the value returned. |
| `SeqStorage.PushThenPop` | src/stack/stack_list.py:8-17 | Push followed by pop returns the pushed value and restores the storage. |
| `SeqStorage.LastInFirstOut` | src/stack/stack_deque.py:11-20 | After pushing `vs`, popping `len(vs)` times returns `vs` in reverse and leaves the earlier storage. |
| `SeqStorage.EnqueueAllStores` | src/queue/queue_list.py:8-9 | Enqueueing at index 0 stores the values back to front before what was there. |
| `SeqStorage.FirstInFirstOut` | src/queue/queue_deque.py:16-23 | Dequeueing from the right end after enqueueing `vs` at the left returns `vs` in enqueue order. |
| `SeqStorage.EnqueueThenDequeue` | src/queue/queue_list.py:8-15 | From an empty queue, enqueueing v1..vn and dequeueing n times yields v1..vn and leaves it empty. |
| `StackList.Stack.constructor` | src/stack/stack_list.py:2-3 | A new stack is empty. |
| `StackList.Stack.Len` | src/stack/stack_list.py:5-6 | `len` is the storage length. |
| `StackList.Stack.Push` | src/stack/stack_list.py:8-9 | The value is appended at the right end. |
| `StackList.Stack.Pop` | src/stack/stack_list.py:11-17 | The result and the storage left are `SeqStorage.Pop` of the old storage. |
| `StackDeque.Stack.constructor` | src/stack/stack_deque.py:5-6 | A new stack is empty. |
| `StackDeque.Stack.Len` | src/stack/stack_deque.py:8-9 | `len` is the storage length. |
| `StackDeque.Stack.Push` | src/stack/stack_deque.py:11-12 | The value is appended at the right end. |
| `StackDeque.Stack.Pop` | src/stack/stack_deque.py:14-20 | The result and the storage left are `SeqStorage.Pop` of the old storage. |
| `QueueList.Queue.constructor` | src/queue/queue_list.py:2-3 | A new queue is empty. |
| `QueueList.Queue.Len` | src/queue/queue_list.py:5-6 | `len` is the storage length. |
| `QueueList.Queue.Enqueue` | src/queue/queue_list.py:8-9 | The value is inserted at index 0. |
| `QueueList.Queue.Dequeue` | src/queue/queue_list.py:11-15 | The result and the storage left are `SeqStorage.Pop` of the old storage: the oldest value, from the right end. |
| `QueueDeque.Queue.constructor` | src/queue/queue_deque.py:10-11 | A new queue is empty. |
| `QueueDeque.Queue.Len` | src/queue/queue_deque.py:13-14 | `len` is the storage length. |
| `QueueDeque.Queue.Enqueue` | src/queue/queue_deque.py:16-17 | The value is added at the left end (`appendleft`). |
| `QueueDeque.Queue.Dequeue` | src/queue/queue_deque.py:19-23 | The result and the storage left are `SeqStorage.Pop` of the old storage. |
| `StackLinked.Stack.constructor` | src/stack/stack_linked_singly.py:5-7 | A new stack has counter 0 over a fresh empty list. |
| `StackLinked.Stack.Len` | src/stack/stack_linked_singly.py:9-10 | `len` is the counter, not the storage length. |
| `StackLinked.Stack.Push` | src/stack/stack_linked_singly.py:12-14 | The counter grows by one and the value is appended at the storage tail. A counter equal to the number of stored values stays equal. |
| `StackLinked.Stack.Pop` | src/stack/stack_linked_singly.py:16-21 | The result and the values left are `SeqStorage.Pop` of the old values. The counter drops only when the result is not None, so it ends one above the stored count exactly when a stored None was popped. |
| `StackLinked.Stack.PopCounted` | src/stack/stack_linked_singly.py:16-21 | The corrected `pop`: the counter drops whenever a value was removed, so it keeps equal to the stored count. |
| `StackLinked.NoneDriftScenario` | src/stack/stack_linked_singly.py:17-19 | Pushing None and popping it leaves the storage empty while `len` is 1. |
| `StackLinked.CountedScenario` | src/stack/stack_linked_singly.py:17-19 | The same steps with the corrected `pop` give `len` 0. |

## Left out

- `use_queue` in `src/queue/queue_deque.py` only prints to the console.
- The singly-linked `Node.__repr__` (its format string lacks the closing
  parenthesis) and Python's `repr`/`str` of values other than integers. The
  doubly-linked list's `__repr__` is modelled for integer values, written in
  decimal as Python's `str` does.
- The `prev`/`next_node` parameters of the doubly-linked `Node` constructor.
  Nothing in the modelled code passes them, so a new node always starts
  unlinked.
- Node values never change after construction, so `value` is a constant. The
  doubly-linked list holds integers, which `get_max` compares. The other
  containers hold `Option<int>`, standing for any Python value.
- Foreign or already-removed nodes given to `move_to_front`, `move_to_end` or
  `delete` corrupt other lists in Python. The model requires a node of this list.
  The exceptions are None and a node with both links None, which the src copy's
  guards handle and the model follows.
- Exceptions are preconditions instead: `get_max` on an empty list, and the
  root copy's methods given None on a non-empty list.
- Python truthiness (`not node`) is modelled as the test for None. No other
  value reaches these tests in the modelled code.
- `DoublyLinkedUnguarded.MoveToFront`, `DoublyLinkedUnguarded.MoveToEnd`,
  `DoublyLinkedUnguarded.Delete`: these require a member node on a non-empty
  list. With one node the root `delete` accepts any non-None node, as modelled.
- `collections.deque` internals and the complexity of the operations: a deque is
  a sequence here.
- The import in `src/stack/stack_linked_singly.py` names a module path that is
  not part of this model. `LinkedList` is taken to be the singly-linked list
  modelled here.

## Findings

| source | as written | input that shows it | evidently intended | confidence | as-written member | corrected member |
|---|---|---|---|---|---|---|
| src/doubly_linked_list/doubly_linked_list.py:328-331 | `delete` of the tail moves `tail` back but leaves the new tail's `next` on the removed node. `get_max` and `__repr__` walk `next` until None, so they still visit it. The root copy has the same defect at doubly_linked_list/doubly_linked_list.py:238-239. | `DoublyLinkedList([1, 5])`, then `delete(dll.tail)`: `get_max()` is 5 and the repr is `"DLL=[Node(1)]Node(5) -> "` | the new tail's `next` (and, after deleting the head, the new head's `prev`) set to None, giving 1 and `"DLL=[Node(1)]"` | high (not executed) | `DoublyLinkedGuarded.StaleTailScenario` | `DoublyLinkedGuarded.DoublyLinkedList.DeleteRepaired` |
| src/stack/stack_linked_singly.py:17-19 | `pop` decrements `size` only when the popped value is not None, yet a stored None is popped and removed too | `push(None)`, then `pop()`: the storage is empty and `len()` is 1 | decrement whenever the storage was not empty | high (not executed) | `StackLinked.NoneDriftScenario` | `StackLinked.Stack.PopCounted` |
