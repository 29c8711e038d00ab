# MyArrayList and MyLinkedList in Dafny

This project models the two list containers of the `ru.yazgevich.collection`
package and proves what their operations do.

- `MyArrayList` keeps its elements in a buffer `elementData`, together with
  the fields `size` and `modCount`.
- `MyLinkedList` keeps a doubly linked chain of `Node`s, together with
  `head`, `tail`, `size` and `modCount`.

Both Java classes update their fields in place, so both are Dafny classes
with the same fields. Their methods carry `modifies` clauses, and their loops
carry invariants. Each class also has ghost state: the array list has the
function `Contents() == elementData[..size]`, and the linked list has the
fields `nodes` (the chain, in order) and `Contents` (the values). The
predicate `Valid()` ties this ghost state to the real fields, and every
method's contract states its effect on `Contents`.

The modules:

- `Runtime` (`runtime.dfy`) holds what both classes share:
  - Java references that may be null, as `Ref<T>`;
  - the exceptions the two classes throw, returned as `Result`/`Outcome`
    values instead of being thrown;
  - `Objects.checkIndex` and the two classes' identical `checkRange`;
  - the 32-bit `int` arithmetic that `hashCode` uses, on words modulo 2^32.
- `ArrayLists` (`array_list.dfy`) is the array list:
  - `System.arraycopy` is `ArrayCopy`, a method on arrays;
  - the shifting done by `add(int, E)` and `remove` is stated by the
    sequence lemmas `ShiftRightInsert` and `ShiftLeftRemove`;
  - `hashCode` is the fold `PolyHash`, which is proved to depend on order.
- `LinkedLists` (`linked_list.dfy`) is the linked list:
  - `Node` is a class, and each list's nodes are the ghost field `nodes`;
  - splicing one node in or out is proved to keep the list well formed;
  - `hashCode` is the sum `LinkedHash`, which is proved not to depend on
    order.

The model follows the code where it departs from textbook list behaviour:

- Array list `add(index, e)` rejects `index == size` and always grows,
  because `elementData.length >= size` always holds.
- Array list `equals` is object identity (see Findings).
- The growth rule is `length < 10 ? 10 : 2 * length`. So a buffer of 6
  slots grows to 10 slots, not 12, and this is not `max(10, 2 * length)`.
- Linked list `add(0, e)` on a non-empty list throws NullPointerException
  before anything changes. On an empty list, index 0 is out of range.
- Linked list `remove` succeeds only for an interior index:
  - at index 0 it throws before anything changes;
  - at the last index of a longer list, it first sets the previous node's
    `next` to null and then throws. The list is left broken: `tail` and
    `size` still count the removed node. The contract states exactly which
    field changed.
- Linked list `subList` finds its `tail` by walking `prev` from the node
  at `from`.
  - Its tail is the node at `to - 1` only when the range has length one.
  - The walk throws NullPointerException when it would step past null,
    i.e. when `to - from > from + 2`. At `to - from == from + 2` it
    succeeds with a null `tail`.
  - The result shares its nodes with the source list.
- Linked list `equals` and `hashCode` walk `next` from `head` until null,
  not `size` steps. On a list `subList` returned, that walk runs on into
  the source's later nodes, so `hashCode` counts their values too, and
  `equals` is not symmetric (see Findings).

Element classes are parameters of the model. Element `equals` is Dafny
equality on `T`. Element `hashCode` is a function `h: T -> Word` given to
each hash method.

## Model

| member | source | states |
|---|---|---|
| Runtime.CheckIndex | src/main/java/ru/yazgevich/collection/MyArrayList.java:86 | `Objects.checkIndex` passes iff `0 <= index < length`, and otherwise fails with IndexOutOfBounds carrying index and length |
| Runtime.CheckRange | src/main/java/ru/yazgevich/collection/MyArrayList.java:181-189 | passes iff `0 <= from <= to <= size`; the three failures are tested in source order (`from > to`, then `from < 0`, then `to > size`), each with its own error; the linked list's copy at MyLinkedList.java:241-249 is the same |
| ArrayLists.GrownLength | src/main/java/ru/yazgevich/collection/MyArrayList.java:125 | the grown length is strictly larger than the old length and at least `DEFAULT_CAPACITY` |
| ArrayLists.FoldStepCarry | src/main/java/ru/yazgevich/collection/MyArrayList.java:208 | `31 * hash + x` in `int` arithmetic is the exact value minus a multiple of 2^32 |
| ArrayLists.FoldStepInjective | src/main/java/ru/yazgevich/collection/MyArrayList.java:208 | one hash step with the same element maps different hashes to different hashes (31 is invertible modulo 2^32) |
| ArrayLists.FifteenCancels | src/main/java/ru/yazgevich/collection/MyArrayList.java:208 | if `15 * d` is a multiple of 2^31 then `d` is (15 is invertible modulo 2^31), used for the swap lemma |
| ArrayLists.SwapFoldAgreement | src/main/java/ru/yazgevich/collection/MyArrayList.java:206-209 | two hash steps over neighbours give the same word in both orders only if their hashes agree modulo 2^31 |
| ArrayLists.PolyHashSnoc | src/main/java/ru/yazgevich/collection/MyArrayList.java:206-209 | the hash of `s + [e]` is one loop step applied to the hash of `s` |
| ArrayLists.PolyHashAppendKeepsDifference | src/main/java/ru/yazgevich/collection/MyArrayList.java:204-211 | appending the same elements to two lists with different hashes keeps their hashes different |
| ArrayLists.PolyHashOrderSensitive | src/main/java/ru/yazgevich/collection/MyArrayList.java:204-211 | swapping two neighbouring elements whose hashes differ modulo 2^31 changes the list's hash, wherever they sit |
| ArrayLists.ShiftRightInsert | src/main/java/ru/yazgevich/collection/MyArrayList.java:113-114 | after the right shift of `[index, size)` and the store at `index`, the first `size + 1` slots are the old elements with the new one inserted at `index`, and the slots beyond are untouched |
| ArrayLists.ShiftLeftRemove | src/main/java/ru/yazgevich/collection/MyArrayList.java:154-155 | after the left shift of `[index + 1, size)` and the store in the last used slot, the first `size - 1` slots are the old elements without the one at `index`, that slot holds the stored value, and the slots from `size` on are untouched |
| ArrayLists.ArrayCopy | src/main/java/ru/yazgevich/collection/MyArrayList.java:113 | `System.arraycopy` for in-bounds arguments: the destination range receives the old source range and every other destination slot is kept, also when source and destination are one array and the ranges overlap |
| ArrayLists.MyArrayList.constructor | src/main/java/ru/yazgevich/collection/MyArrayList.java:33-35 | an empty valid list with a fresh buffer of `DEFAULT_CAPACITY` slots and `modCount` 0 |
| ArrayLists.MyArrayList.WithCapacity | src/main/java/ru/yazgevich/collection/MyArrayList.java:42-48 | IllegalArgumentException carrying `capacity` iff `capacity < 0`; otherwise a fresh empty list whose buffer has exactly `capacity` slots |
| ArrayLists.MyArrayList.FromList | src/main/java/ru/yazgevich/collection/MyArrayList.java:56-62 | contents equal the argument in order; a non-empty argument gets a buffer of exactly its length; `modCount` is the argument's length |
| ArrayLists.MyArrayList.AddAll | src/main/java/ru/yazgevich/collection/MyArrayList.java:70-77 | contents become old contents followed by the argument; the result is true iff the argument is non-empty; `modCount` grows by the argument's length; the buffer is kept when it has room for all |
| ArrayLists.MyArrayList.Get | src/main/java/ru/yazgevich/collection/MyArrayList.java:85-88 | the element at `index` iff `0 <= index < size`, otherwise IndexOutOfBounds |
| ArrayLists.MyArrayList.Add | src/main/java/ru/yazgevich/collection/MyArrayList.java:96-101 | contents become `old + [e]`, `modCount` grows by 1, the result is true; the buffer is replaced by a grown one exactly when it was full |
| ArrayLists.MyArrayList.AddAt | src/main/java/ru/yazgevich/collection/MyArrayList.java:110-117 | succeeds iff `0 <= index < size` (so not at `size`), leaving contents `old[..index] + [e] + old[index..]`, `modCount + 1` and always a grown buffer; otherwise IndexOutOfBounds and nothing changes |
| ArrayLists.MyArrayList.Grow | src/main/java/ru/yazgevich/collection/MyArrayList.java:124-129 | a fresh buffer of the grown length; contents, `size` and `modCount` unchanged |
| ArrayLists.MyArrayList.Set | src/main/java/ru/yazgevich/collection/MyArrayList.java:138-143 | succeeds iff `0 <= index < size`, returning the old element and changing only that element; `size` and `modCount` are outside its frame |
| ArrayLists.MyArrayList.Remove | src/main/java/ru/yazgevich/collection/MyArrayList.java:151-158 | succeeds iff `0 <= index < size`, returning `old[index]`, leaving contents `old[..index] + old[index + 1..]`, the vacated slot null and `modCount + 1` in the same buffer; otherwise IndexOutOfBounds and nothing changes |
| ArrayLists.MyArrayList.SubList | src/main/java/ru/yazgevich/collection/MyArrayList.java:168-173 | succeeds iff the range check passes, otherwise returns the range check's error; the result is a fresh list with a fresh buffer holding `Contents()[from..to]` |
| ArrayLists.MyArrayList.HashCodeTo | src/main/java/ru/yazgevich/collection/MyArrayList.java:204-211 | the loop computes `PolyHash` of the first `to` elements |
| ArrayLists.MyArrayList.HashCode | src/main/java/ru/yazgevich/collection/MyArrayList.java:197-202 | `PolyHash` of the contents; it modifies nothing, so its modCount re-check cannot fail |
| ArrayLists.MyArrayList.Equals | src/main/java/ru/yazgevich/collection/MyArrayList.java:222-230 | as written: true iff `o` is this very object |
| ArrayLists.MyArrayList.StructuralEquals | src/main/java/ru/yazgevich/collection/MyArrayList.java:213-220 | the documented `equals`: true iff `o` is a list whose contents equal these, element by element in order |
| ArrayLists.MyArrayList.EqualsModCount | src/main/java/ru/yazgevich/collection/MyArrayList.java:240-242 | ConcurrentModification exactly when `modCount` differs from the expected count |
| ArrayLists.MyArrayList.Size | src/main/java/ru/yazgevich/collection/MyArrayList.java:263-265 | the number of elements |
| ArrayLists.EqualContentsNotEqual | src/main/java/ru/yazgevich/collection/MyArrayList.java:224-226 | two distinct lists that both hold exactly `[7]` are not `equals` |
| LinkedLists.SumHashAppend | src/main/java/ru/yazgevich/collection/MyLinkedList.java:325-328 | the sum of per-value hashes over a concatenation is the sum over the parts |
| LinkedLists.MultisetRemoveAt | src/main/java/ru/yazgevich/collection/MyLinkedList.java:325-328 | taking the value at one position out of a sequence removes one copy of it from the multiset |
| LinkedLists.SumHashRemoveAt | src/main/java/ru/yazgevich/collection/MyLinkedList.java:325-328 | taking the value at one position out of a sequence removes exactly its term from the hash sum |
| LinkedLists.SumHashPermutation | src/main/java/ru/yazgevich/collection/MyLinkedList.java:325-328 | two sequences with the same multiset of values have the same hash sum |
| LinkedLists.LinkedHashPermutation | src/main/java/ru/yazgevich/collection/MyLinkedList.java:321-331 | two lists holding the same values in any order have the same `hashCode` |
| LinkedLists.WrapAdd | src/main/java/ru/yazgevich/collection/MyLinkedList.java:326 | adding to a 32-bit word and wrapping gives the same word as wrapping the unbounded sum |
| LinkedLists.SpliceIn | src/main/java/ru/yazgevich/collection/MyLinkedList.java:133-135 | putting a new node between the nodes at `index - 1` and `index` gives a chain that is distinct and linked both ways, with the value inserted at `index` |
| LinkedLists.SpliceOut | src/main/java/ru/yazgevich/collection/MyLinkedList.java:186-187 | linking the nodes at `index - 1` and `index + 1` to each other gives a chain without the node at `index`, still distinct and linked both ways |
| LinkedLists.Node.constructor | src/main/java/ru/yazgevich/collection/MyLinkedList.java:267-271 | a node with the given `prev`, value and `next` |
| LinkedLists.MyLinkedList.constructor | src/main/java/ru/yazgevich/collection/MyLinkedList.java:36-39 | an empty valid list with null `head` and `tail` and `modCount` 0 |
| LinkedLists.MyLinkedList.FromCollection | src/main/java/ru/yazgevich/collection/MyLinkedList.java:46-52 | a valid list of fresh nodes holding `c` in order, with `size == |c|` and `modCount == |c|` |
| LinkedLists.MyLinkedList.AddAll | src/main/java/ru/yazgevich/collection/MyLinkedList.java:60-67 | contents become old contents followed by `c`; the result is true iff `c` is non-empty; `modCount` grows by `|c|`; the old nodes stay in place and new ones are fresh |
| LinkedLists.MyLinkedList.AddFirst | src/main/java/ru/yazgevich/collection/MyLinkedList.java:75-86 | contents become `[e] + old`; the new head is a fresh node in front of the old nodes; `tail` is kept unless the list was empty; `modCount + 1` |
| LinkedLists.MyLinkedList.AddLast | src/main/java/ru/yazgevich/collection/MyLinkedList.java:94-105 | contents become `old + [e]`; the new tail is a fresh node after the old nodes; `head` is kept unless the list was empty; `modCount + 1` |
| LinkedLists.MyLinkedList.Add | src/main/java/ru/yazgevich/collection/MyLinkedList.java:115-118 | as `addLast`, answering true |
| LinkedLists.MyLinkedList.AddAt | src/main/java/ru/yazgevich/collection/MyLinkedList.java:126-138 | succeeds iff `0 < index < size`, leaving contents `old[..index] + [e] + old[index..]`, a fresh node at `index` and `modCount + 1`; at index 0 of a non-empty list it is NullPointer, and out of range it is IndexOutOfBounds; on failure nothing changes |
| LinkedLists.MyLinkedList.Get | src/main/java/ru/yazgevich/collection/MyLinkedList.java:146-153 | the value `index` steps from `head` iff `0 <= index < size`, otherwise IndexOutOfBounds; it needs only the forward chain, so it also works on a sub-list |
| LinkedLists.MyLinkedList.Set | src/main/java/ru/yazgevich/collection/MyLinkedList.java:162-171 | succeeds iff `0 <= index < size`, returning the old value and replacing only that value; no link changes, `head`, `tail`, `size` and `modCount` are outside its frame, and well-formedness is kept |
| LinkedLists.MyLinkedList.Remove | src/main/java/ru/yazgevich/collection/MyLinkedList.java:179-191 | succeeds iff `0 < index < size - 1`, returning `old[index]` and leaving contents and nodes without that position and `modCount + 1`; at index 0 it is NullPointer with no change; at the last index of a longer list it is NullPointer after cutting the previous node's `next` to null, with the list's own fields and every other node unchanged and the list no longer well formed; out of range it is IndexOutOfBounds with no change |
| LinkedLists.MyLinkedList.SubList | src/main/java/ru/yazgevich/collection/MyLinkedList.java:201-217 | fails with the range check's error, or with NullPointer when the backward walk passes the first node (`to - from > from + 2`); otherwise a fresh list sharing the source's nodes `[from, to)`, holding `Contents[from..to]`, with `size == to - from`; its `tail` is the node the backward walk reaches, and it is the node at `to - 1` iff the range has length one |
| LinkedLists.MyLinkedList.Equals | src/main/java/ru/yazgevich/collection/MyLinkedList.java:297-313 | as written, for any two lists, with `run` and `orun` the chains each `head` reaches by `next` before null: true iff `o` is this object, or `o` is not null, `orun` is at least as long as `run`, the sizes are equal and the values along `run` are the first values along `orun`; for two well-formed lists, true iff `o` is not null and holds the same values in the same order |
| LinkedLists.MyLinkedList.SizedEquals | src/main/java/ru/yazgevich/collection/MyLinkedList.java:288-295 | the documented `equals`, walking `size` nodes of each chain: true iff `o` is a list of the same size whose values equal these in order; it needs only the forward chain, so it holds for lists `subList` returned as well |
| LinkedLists.MyLinkedList.HashCode | src/main/java/ru/yazgevich/collection/MyLinkedList.java:321-331 | for any list, `Objects.hash(size)` plus `Objects.hash(v)` for every value on the chain from `head` to null, in 32-bit arithmetic; on a well-formed list that is `LinkedHash` of the contents; it modifies nothing, so its modCount re-check cannot fail |
| LinkedLists.MyLinkedList.ValidForwardRun | src/main/java/ru/yazgevich/collection/MyLinkedList.java:325-328 | in a well-formed list, walking `next` from `head` until null visits exactly its nodes, carrying its values in order |
| LinkedLists.MyLinkedList.SuffixRun | src/main/java/ru/yazgevich/collection/MyLinkedList.java:203-213 | a list whose `head` is the node at `from` of a well-formed list walks `next` through all the nodes from `from` to the end, so on a list `subList(from, to)` returned the walk goes past its `to - from` nodes |
| LinkedLists.MyLinkedList.RunHash | src/main/java/ru/yazgevich/collection/MyLinkedList.java:323-328 | the running hash, wrapped after every addition, equals the wrapped sum of `Objects.hash(size)` and the terms of the walked values, and on a well-formed list it is `LinkedHash` of the contents |
| LinkedLists.WalkHashSum | src/main/java/ru/yazgevich/collection/MyLinkedList.java:326 | adding the terms one at a time with a wrap after each gives the same word as wrapping the unbounded sum |
| LinkedLists.SumHashSingleton | src/main/java/ru/yazgevich/collection/MyLinkedList.java:326 | the hash sum of a single value is its `Objects.hash` |
| LinkedLists.MyLinkedList.EqualsModCount | src/main/java/ru/yazgevich/collection/MyLinkedList.java:284-286 | ConcurrentModification exactly when `modCount` differs from the expected count |
| LinkedLists.MyLinkedList.Size | src/main/java/ru/yazgevich/collection/MyLinkedList.java:256-258 | the number of values |
| LinkedLists.InsertedValid | src/main/java/ru/yazgevich/collection/MyLinkedList.java:132-137 | if only the two links around `index` are redirected through a fresh node, and the list's fields are updated to match, a well-formed list stays well formed |
| LinkedLists.RemovedValid | src/main/java/ru/yazgevich/collection/MyLinkedList.java:185-189 | if only the nodes beside an interior `index` are linked to each other, and the list's fields are updated to match, a well-formed list stays well formed |
| LinkedLists.EqualsOverrun | src/main/java/ru/yazgevich/collection/MyLinkedList.java:304-310 | for a list whose walk from `head` goes past its `size` nodes and a separate well-formed list with the same contents, `equals` is false one way and true the other |
| LinkedLists.SubListEqualsAsymmetric | src/main/java/ru/yazgevich/collection/MyLinkedList.java:304-310 | for `subList(1, 3)` of [1, 2, 3, 4] and a separate list [2, 3], `equals` is false from the sub-list and true towards it |
| LinkedLists.SubListGetAgrees | src/main/java/ru/yazgevich/collection/MyLinkedList.java:201-217 | when `subList` succeeds, `get(k)` on the sub-list succeeds and equals `get(from + k)` on the source |

## Left out

- `toString` of both classes: it builds text through `StringBuilder` and
  element `toString`, which are outside the model. The array list version
  also prints the buffer's null slots past `size`.
- Java `int` overflow of `size`, `modCount`, `list.size()` and
  `elementData.length * 2` in `grow`: these are unbounded integers here. Only
  the `hashCode` arithmetic is modelled as 32-bit.
- Null collection arguments to the constructors and to `addAll`: arguments
  are sequences. The `c != null` / `list != null` tests are therefore the
  emptiness tests alone, and `addAll(null)`'s NullPointerException is not
  modelled.
- `instanceof` against classes other than the list itself:
  - `LinkedLists.MyLinkedList.Equals` takes a possibly-null list, and null
    stands for both null and an object of another class;
  - `ArrayLists.MyArrayList.Equals` takes any object and compares identity
    only.
- Element `equals` and `hashCode` are parameters: Dafny equality on `T` and
  a function `h: T -> Word`. `Objects.deepEquals` on nested arrays is not
  modelled.
- Concurrency: `equalsModCount` is modelled as a sequential check, a
  function of `modCount` since it only reads it. `equals` and `hashCode`
  modify nothing, so its failure branch is shown to be dead.
- `System.arraycopy`'s own exceptions (null arrays, out-of-range positions,
  type mismatch): every call site passes arguments in range, and
  `ArrayLists.ArrayCopy` requires them.
- `Arrays.asList` in array list `subList`: it is the sequence of the copied
  buffer, with no wrapper object.
- `LinkedLists.MyLinkedList.FromCollection`: the statement `size = c.size()`
  after `addAll(c)` is not performed. The model proves that `size` already
  holds `|c|` at that point, so the store writes the value already there.
- `LinkedLists.MyLinkedList.SubList`: the result keeps only the forward
  chain (`Chain()`) and the run `SuffixRun` states, not the whole of
  `Valid()`. Its first node's `prev` and its last node's `next` still point
  into the source list, and its `tail` is not in general its last node.
- `addFirst`, `addLast`, `add`, `add(int, E)`, `remove`, `addAll` and
  `subList` on a list `subList` returned are not modelled: they require
  `Valid()`. On a sub-list they re-link nodes that the source list still
  uses. `get`, `set`, `size`, `equals` and `hashCode` are modelled there.

## Findings

| source | as written | input that shows it | evidently intended | confidence | as-written member | corrected member |
|---|---|---|---|---|---|---|
| src/main/java/ru/yazgevich/collection/MyArrayList.java:226 | `equals` returns false unless `super.equals(o)`, and `Object.equals` is identity, so two distinct lists are never equal and the element comparison on line 227 never runs | two separate lists, each holding the single element 7 | true iff `o` is a `MyArrayList` of the same size whose elements are pairwise equal in order, as the method's documentation (MyArrayList.java:213-220) says; line 227's `Objects.deepEquals` of the two whole buffers would still compare their lengths and the null slots past `size`, so it is not what is intended either | high; not executed | ArrayLists.MyArrayList.Equals, ArrayLists.EqualContentsNotEqual | ArrayLists.MyArrayList.StructuralEquals |
| src/main/java/ru/yazgevich/collection/MyLinkedList.java:304-307 | `equals` walks `next` until `thisNode` is null, not `size` steps, and answers false as soon as the other chain ends first; on a list `subList` returned, the walk runs on into the source's later nodes, so `a.equals(b)` and `b.equals(a)` can differ | `subList(1, 3)` of the list [1, 2, 3, 4] against a separate list [2, 3]: false from the sub-list, true the other way | true iff `o` is a list of the same size whose first `size` values equal these in order, as the method's documentation (MyLinkedList.java:288-295) says, which is symmetric | high; not executed | LinkedLists.MyLinkedList.Equals, LinkedLists.EqualsOverrun, LinkedLists.SubListEqualsAsymmetric | LinkedLists.MyLinkedList.SizedEquals |
