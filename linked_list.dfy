/** `MyLinkedList`: a list kept in a doubly linked chain of nodes from
    `head` to `tail`. Every indexed operation walks forward from `head`. */
module LinkedLists {
  import opened Runtime

  /** The sum, without wrap-around, of `Objects.hash(v)` over the values `s`,
      added in list order. */
  function SumHash<T>(h: T -> Word, s: seq<Ref<T>>): int
  {
    if s == [] then 0 else SumHash(h, s[..|s| - 1]) + ObjectsHash(Hash(h, s[|s| - 1]))
  }

  /** `hashCode()` of a list holding `s`: `Objects.hash(size)` plus
      `Objects.hash(v)` for every value, in 32-bit arithmetic. */
  function LinkedHash<T>(h: T -> Word, s: seq<Ref<T>>): Word
  {
    IntWord(ObjectsHash(IntWord(|s|)) + SumHash(h, s))
  }

  /** The values carried by the nodes `run`, in order. */
  ghost function ValuesOf<T>(run: seq<Node<T>>): (r: seq<Ref<T>>)
    reads run
    ensures |r| == |run| && forall k :: 0 <= k < |run| ==> r[k] == run[k].value
  {
    if run == [] then [] else ValuesOf(run[..|run| - 1]) + [run[|run| - 1].value]
  }

  /** The hash sum of a concatenation is the sum of the hash sums. */
  lemma {:induction false} SumHashAppend<T>(h: T -> Word, s: seq<Ref<T>>, t: seq<Ref<T>>)
    ensures SumHash(h, s + t) == SumHash(h, s) + SumHash(h, t)
    decreases |t|
  {
    if t == [] {
      assert s + t == s;
    } else {
      var t', last := t[..|t| - 1], t[|t| - 1];
      SumHashAppend(h, s, t');
      assert (s + t)[..|s + t| - 1] == s + t';
    }
  }

  /** Taking the value at `j` out of `t` takes one copy of it out of the
      multiset of `t`. */
  lemma {:induction false} MultisetRemoveAt<E>(t: seq<E>, j: int)
    requires 0 <= j < |t|
    ensures multiset(t[..j] + t[j + 1..]) == multiset(t) - multiset{t[j]}
  {
    assert t == t[..j] + [t[j]] + t[j + 1..];
  }

  /** The hash sum of one value is its `Objects.hash`. */
  lemma SumHashSingleton<T>(h: T -> Word, x: Ref<T>)
    ensures SumHash(h, [x]) == ObjectsHash(Hash(h, x))
  {
    assert [x][..0] == [];
  }

  /** Taking the value at `j` out of `t` takes its term out of the hash sum. */
  lemma {:induction false} SumHashRemoveAt<T>(h: T -> Word, t: seq<Ref<T>>, j: int)
    requires 0 <= j < |t|
    ensures SumHash(h, t) == SumHash(h, t[..j] + t[j + 1..]) + ObjectsHash(Hash(h, t[j]))
  {
    var a, x, b := t[..j], t[j], t[j + 1..];
    assert t == (a + [x]) + b;
    SumHashAppend(h, a + [x], b);
    SumHashAppend(h, a, [x]);
    SumHashAppend(h, a, b);
    SumHashSingleton(h, x);
  }

  /** The hash sum does not depend on the order of the values. */
  lemma {:induction false} SumHashPermutation<T>(h: T -> Word, s: seq<Ref<T>>, t: seq<Ref<T>>)
    requires multiset(s) == multiset(t)
    ensures SumHash(h, s) == SumHash(h, t)
    decreases |s|
  {
    if s == [] {
      assert |t| == |multiset(t)| == 0;
    } else {
      var s', x := s[..|s| - 1], s[|s| - 1];
      assert s == s' + [x];
      assert x in multiset(t);
      var j :| 0 <= j < |t| && t[j] == x;
      MultisetRemoveAt(t, j);
      assert multiset(s') == multiset(s) - multiset{x};
      SumHashPermutation(h, s', t[..j] + t[j + 1..]);
      SumHashRemoveAt(h, t, j);
    }
  }

  /** The linked list's hash ignores order: two lists holding the same
      values, in any order, hash alike. */
  lemma LinkedHashPermutation<T>(h: T -> Word, s: seq<Ref<T>>, t: seq<Ref<T>>)
    requires multiset(s) == multiset(t)
    ensures LinkedHash(h, s) == LinkedHash(h, t)
  {
    assert |s| == |multiset(s)| == |multiset(t)| == |t|;
    SumHashPermutation(h, s, t);
  }

  /** Adding after wrapping wraps to the same word. */
  lemma WrapAdd(x: int, y: int)
    ensures IntWord(IntWord(x) + y) == IntWord(x + y)
  {
    var q := x / Modulus;
    assert x == q * Modulus + IntWord(x);
    assert IntWord(x) + y == (x + y) - q * Modulus;
  }

  /** The running hash of a walk that starts from `base` and adds the term
      of each of the first `n` values of `s`, in order, wrapping after each
      addition. */
  function WalkHash<T>(h: T -> Word, base: Word, s: seq<Ref<T>>, n: nat): Word
    requires n <= |s|
  {
    if n == 0 then base else IntWord(WalkHash(h, base, s, n - 1) + ObjectsHash(Hash(h, s[n - 1])))
  }

  /** Wrapping after every addition gives the wrapped sum. */
  lemma {:induction false} WalkHashSum<T>(h: T -> Word, base: Word, s: seq<Ref<T>>, n: nat)
    requires n <= |s|
    ensures WalkHash(h, base, s, n) == IntWord(base + SumHash(h, s[..n]))
  {
    if n == 0 {
      assert s[..n] == [];
    } else {
      WalkHashSum(h, base, s, n - 1);
      assert s[..n][..n - 1] == s[..n - 1];
      WrapAdd(base + SumHash(h, s[..n - 1]), ObjectsHash(Hash(h, s[n - 1])));
    }
  }

  /** Linking `cur` in between the nodes at `index - 1` and `index` of a
      doubly linked run `ns` carrying `cs` gives a doubly linked run with
      `cur` at `index`, carrying `e` there. */
  lemma SpliceIn<T>(ns: seq<Node<T>>, cs: seq<Ref<T>>, index: int, cur: Node<T>, e: Ref<T>)
    requires |ns| == |cs| && 0 < index < |ns| && cur !in ns && cur.value == e
    requires forall i, j :: 0 <= i < j < |ns| ==> ns[i] != ns[j]
    requires forall k :: 0 <= k < |ns| ==> ns[k].value == cs[k]
    requires forall k :: 0 <= k < |ns| - 1 && k != index - 1 ==> ns[k].next == ns[k + 1]
    requires forall k :: 0 < k < |ns| && k != index ==> ns[k].prev == ns[k - 1]
    requires ns[index - 1].next == cur && cur.next == ns[index]
    requires ns[index].prev == cur && cur.prev == ns[index - 1]
    ensures var s2, c2 := ns[..index] + [cur] + ns[index..], cs[..index] + [e] + cs[index..];
      && |s2| == |c2| == |ns| + 1
      && (forall k :: 0 <= k < |s2| ==> s2[k].value == c2[k])
      && (forall i, j :: 0 <= i < j < |s2| ==> s2[i] != s2[j])
      && (forall k :: 0 <= k < |s2| - 1 ==> s2[k].next == s2[k + 1])
      && (forall k :: 0 < k < |s2| ==> s2[k].prev == s2[k - 1])
  {
    var s2, c2 := ns[..index] + [cur] + ns[index..], cs[..index] + [e] + cs[index..];
    forall k | 0 <= k < |s2|
      ensures s2[k] == if k < index then ns[k] else if k == index then cur else ns[k - 1]
      ensures c2[k] == if k < index then cs[k] else if k == index then e else cs[k - 1]
    {
    }
  }

  /** Linking the nodes at `index - 1` and `index + 1` of a doubly linked
      run `ns` carrying `cs` to each other gives a doubly linked run without
      the node at `index`. */
  lemma SpliceOut<T>(ns: seq<Node<T>>, cs: seq<Ref<T>>, index: int)
    requires |ns| == |cs| && 0 < index < |ns| - 1
    requires forall i, j :: 0 <= i < j < |ns| ==> ns[i] != ns[j]
    requires forall k :: 0 <= k < |ns| ==> ns[k].value == cs[k]
    requires forall k :: 0 <= k < |ns| - 1 && k != index - 1 ==> ns[k].next == ns[k + 1]
    requires forall k :: 0 < k < |ns| && k != index + 1 ==> ns[k].prev == ns[k - 1]
    requires ns[index - 1].next == ns[index + 1] && ns[index + 1].prev == ns[index - 1]
    ensures var s2, c2 := ns[..index] + ns[index + 1..], cs[..index] + cs[index + 1..];
      && |s2| == |c2| == |ns| - 1
      && (forall k :: 0 <= k < |s2| ==> s2[k].value == c2[k])
      && (forall i, j :: 0 <= i < j < |s2| ==> s2[i] != s2[j])
      && (forall k :: 0 <= k < |s2| - 1 ==> s2[k].next == s2[k + 1])
      && (forall k :: 0 < k < |s2| ==> s2[k].prev == s2[k - 1])
  {
    var s2, c2 := ns[..index] + ns[index + 1..], cs[..index] + cs[index + 1..];
    forall k | 0 <= k < |s2|
      ensures s2[k] == if k < index then ns[k] else ns[k + 1]
      ensures c2[k] == if k < index then cs[k] else cs[k + 1]
    {
    }
  }

  /** `Node`: one value and the links to its neighbours. */
  class Node<T> {
    var value: Ref<T>
    var next: Node?<T>
    var prev: Node?<T>

    /** `Node(prev, value, next)`. */
    constructor (prev: Node?<T>, value: Ref<T>, next: Node?<T>)
      ensures this.prev == prev && this.value == value && this.next == next
    {
      this.prev := prev;
      this.value := value;
      this.next := next;
    }
  }

  class MyLinkedList<T(==)> {
    var head: Node?<T>
    var tail: Node?<T>
    var size: int
    /** Structural modifications so far; Java's `int` wrap-around is not modelled. */
    var modCount: int

    /** The nodes `size` forward steps from `head` reach, in order. */
    ghost var nodes: seq<Node<T>>
    /** Their values: the elements of the list. */
    ghost var Contents: seq<Ref<T>>

    /** Walking `next` from `head` visits the distinct `nodes` in order,
        `size` of them, carrying `Contents`. A list `subList` returns keeps
        only this much. */
    ghost predicate Chain()
      reads this, nodes
    {
      && size == |nodes| == |Contents|
      && (forall i :: 0 <= i < |nodes| ==> nodes[i].value == Contents[i])
      && (forall i, j :: 0 <= i < j < |nodes| ==> nodes[i] != nodes[j])
      && (forall i :: 0 <= i < |nodes| - 1 ==> nodes[i].next == nodes[i + 1])
      && (nodes != [] ==> head == nodes[0])
    }

    /** A well-formed list: the chain is also linked backwards, ends in null
        at both sides, and `tail` is its last node. */
    ghost predicate Valid()
      reads this, nodes
    {
      && Chain()
      && (forall i :: 0 < i < |nodes| ==> nodes[i].prev == nodes[i - 1])
      && (nodes == [] ==> head == null && tail == null)
      && (nodes != [] ==> nodes[0].prev == null && tail == nodes[|nodes| - 1] && tail.next == null)
    }

    /** `run` is the nodes met by following `next` from `head` until null,
        in order: the nodes `equals` and `hashCode` visit. For a well-formed
        list it is `nodes`; for a list `subList` returned it runs on through
        the source list's later nodes. */
    ghost predicate ForwardRun(run: seq<Node<T>>)
      reads this, run
    {
      && (forall i :: 0 <= i < |run| - 1 ==> run[i].next == run[i + 1])
      && (if run == [] then head == null else head == run[0] && run[|run| - 1].next == null)
    }

    /** In a well-formed list, walking `next` from `head` to null visits
        exactly `nodes`, which carry `Contents`. */
    lemma {:induction false} ValidForwardRun()
      requires Valid()
      ensures ForwardRun(nodes) && ValuesOf(nodes) == Contents
    {
      assert ValuesOf(nodes) == Contents;
    }

    /** In a well-formed list, the nodes from `from` on are the run a walk
        of `next` to null takes from any list whose `head` is the node at
        `from`; on the list `subList(from, to)` returns, that run goes on past
        its `to - from` nodes into the rest of this list. */
    lemma {:induction false} SuffixRun(list: MyLinkedList<T>, from: int)
      requires Valid() && 0 <= from <= size
      requires list.head == if from < size then nodes[from] else null
      ensures list.ForwardRun(nodes[from..])
    {
      ghost var run := nodes[from..];
      forall k | 0 <= k < |run| - 1
        ensures run[k].next == run[k + 1]
      {
        assert run[k] == nodes[from + k] && run[k + 1] == nodes[from + k + 1];
      }
    }

    /** A walk over the run from `head` to null that starts from
        `Objects.hash(size)` ends with the wrapped sum of the terms, which on a
        well-formed list is the hash of the contents. */
    lemma {:induction false} RunHash(h: T -> Word, run: seq<Node<T>>, hash: Word)
      requires hash == WalkHash(h, ObjectsHash(IntWord(size)), ValuesOf(run), |run|)
      ensures hash == IntWord(ObjectsHash(IntWord(size)) + SumHash(h, ValuesOf(run)))
      ensures Valid() && run == nodes ==> hash == LinkedHash(h, Contents)
    {
      var vs := ValuesOf(run);
      WalkHashSum(h, ObjectsHash(IntWord(size)), vs, |run|);
      assert vs[..|run|] == vs;
      if Valid() && run == nodes {
        ValidForwardRun();
        assert vs == Contents && size == |Contents|;
      }
    }

    /** `MyLinkedList()`: the empty list. */
    constructor ()
      ensures Valid() && Contents == [] && modCount == 0
    {
      head := null;
      tail := null;
      size := 0;
      modCount := 0;
      nodes := [];
      Contents := [];
    }

    /** `MyLinkedList(Collection c)`: the values of `c` in iteration order,
        appended one by one, so `modCount` ends at `|c|`. */
    constructor FromCollection(c: seq<Ref<T>>)
      ensures Valid() && Contents == c && modCount == |c|
      ensures forall k :: 0 <= k < |nodes| ==> fresh(nodes[k])
    {
      head := null;
      tail := null;
      size := 0;
      modCount := 0;
      nodes := [];
      Contents := [];
      new;
      if c != [] {
        var _ := AddAll(c);
        // `size = c.size()` stores the value `size` already holds
        assert size == |c|;
      }
    }

    /** `addAll(c)`: appends every value of `c` by `add`, and reports whether
        there was any. */
    method AddAll(c: seq<Ref<T>>) returns (modified: bool)
      requires Valid()
      modifies this, nodes
      ensures Valid()
      ensures modified <==> c != []
      ensures Contents == old(Contents) + c
      ensures modCount == old(modCount) + |c|
      ensures |nodes| == |old(nodes)| + |c| && nodes[..|old(nodes)|] == old(nodes)
      ensures forall k :: |old(nodes)| <= k < |nodes| ==> fresh(nodes[k])
    {
      modified := false;
      var i := 0;
      while i < |c|
        invariant 0 <= i <= |c|
        invariant Valid()
        invariant Contents == old(Contents) + c[..i]
        invariant modCount == old(modCount) + i
        invariant modified <==> i > 0
        invariant |nodes| == |old(nodes)| + i && nodes[..|old(nodes)|] == old(nodes)
        invariant forall k :: |old(nodes)| <= k < |nodes| ==> fresh(nodes[k])
      {
        var _ := Add(c[i]);
        modified := true;
        i := i + 1;
      }
      assert c[..i] == c;
    }

    /** `addFirst(e)`: a new first node; `tail` moves only when the list was
        empty, otherwise the old head's `prev` is linked back to it. */
    method AddFirst(e: Ref<T>)
      requires Valid()
      modifies this, nodes
      ensures Valid()
      ensures Contents == [e] + old(Contents)
      ensures modCount == old(modCount) + 1
      ensures fresh(head) && nodes == [head] + old(nodes)
      ensures old(nodes) != [] ==> tail == old(tail)
    {
      var oldHead := head;
      var newNode := new Node(null, e, oldHead);
      head := newNode;
      if oldHead == null {
        tail := newNode;
      } else {
        oldHead.prev := newNode;
      }
      size := size + 1;
      modCount := modCount + 1;
      nodes := [newNode] + nodes;
      Contents := [e] + Contents;
    }

    /** `addLast(e)`: a new last node; `head` moves only when the list was
        empty, otherwise the old tail's `next` is linked to it. */
    method AddLast(e: Ref<T>)
      requires Valid()
      modifies this, nodes
      ensures Valid()
      ensures Contents == old(Contents) + [e]
      ensures modCount == old(modCount) + 1
      ensures fresh(tail) && nodes == old(nodes) + [tail]
      ensures old(nodes) != [] ==> head == old(head)
    {
      var oldTail := tail;
      var newNode := new Node(oldTail, e, null);
      tail := newNode;
      if oldTail == null {
        head := newNode;
      } else {
        oldTail.next := tail;
      }
      size := size + 1;
      modCount := modCount + 1;
      nodes := nodes + [newNode];
      Contents := Contents + [e];
    }

    /** `add(e)`: `addLast(e)`, answering true. */
    method Add(e: Ref<T>) returns (r: bool)
      requires Valid()
      modifies this, nodes
      ensures Valid() && r
      ensures Contents == old(Contents) + [e]
      ensures modCount == old(modCount) + 1
      ensures fresh(tail) && nodes == old(nodes) + [tail]
    {
      AddLast(e);
      r := true;
    }

    /** `add(index, e)`: after `checkIndex`, walks to the node at `index` and
        links a new node in front of it. At `index == 0` that node's `prev`
        is null, so linking throws NullPointerException before any field of
        the list or of a node has changed. */
    method AddAt(index: int, e: Ref<T>) returns (r: Outcome)
      requires Valid()
      modifies this, nodes
      ensures Valid()
      ensures r.Pass? <==> 0 < index < old(size)
      ensures r.Fail? ==> r.error == if index == 0 < old(size) then NullPointer else IndexOutOfBounds(index, old(size))
      ensures r.Fail? ==> unchanged(this) && unchanged(nodes)
      ensures r.Pass? ==> Contents == old(Contents)[..index] + [e] + old(Contents)[index..]
      ensures r.Pass? ==> modCount == old(modCount) + 1
      ensures r.Pass? ==> fresh(nodes[index]) && nodes == old(nodes)[..index] + [nodes[index]] + old(nodes)[index..]
    {
      r := CheckIndex(index, size);
      if r.Fail? {
        return;
      }
      ghost var ns, cs := nodes, Contents;
      var nextNode := head;
      var i := 0;
      while i < index
        invariant 0 <= i <= index
        invariant nextNode == nodes[i]
      {
        nextNode := nextNode.next;
        i := i + 1;
      }
      var prevNode := nextNode.prev;
      assert prevNode == if index == 0 then null else nodes[index - 1];
      var curNode := new Node(prevNode, e, nextNode);
      if prevNode == null {
        return Fail(NullPointer);
      }
      prevNode.next := curNode;
      nextNode.prev := curNode;
      forall k | 0 <= k < |ns|
        ensures ns[k].value == old(ns[k].value)
        ensures k != index - 1 ==> ns[k].next == old(ns[k].next)
        ensures k != index ==> ns[k].prev == old(ns[k].prev)
      {
        assert k != index - 1 ==> ns[k] != ns[index - 1];
        assert k != index ==> ns[k] != ns[index];
      }
      size := size + 1;
      modCount := modCount + 1;
      nodes := ns[..index] + [curNode] + ns[index..];
      Contents := cs[..index] + [e] + cs[index..];
      InsertedValid(this, index, curNode);
    }

    /** `get(index)`: the value `index` forward steps from `head`. */
    method Get(index: int) returns (r: Result<Ref<T>>)
      requires Chain()
      ensures r.Ok? <==> 0 <= index < |Contents|
      ensures r.Ok? ==> r.value == Contents[index]
      ensures r.Err? ==> r.error == IndexOutOfBounds(index, size)
    {
      var check := CheckIndex(index, size);
      if check.Fail? {
        return Err(check.error);
      }
      var node := head;
      var i := 0;
      while i < index
        invariant 0 <= i <= index
        invariant node == nodes[i]
      {
        node := node.next;
        i := i + 1;
      }
      r := Ok(node.value);
    }

    /** `set(index, element)`: overwrites the value of the node `index`
        forward steps from `head` and returns the old value; no link, no
        other value and none of `head`, `tail`, `size`, `modCount` changes. */
    method Set(index: int, element: Ref<T>) returns (r: Result<Ref<T>>)
      requires Chain()
      modifies this`Contents, nodes
      ensures Chain()
      ensures old(Valid()) ==> Valid()
      ensures r.Ok? <==> 0 <= index < size
      ensures r.Err? ==> r.error == IndexOutOfBounds(index, size) && Contents == old(Contents)
      ensures r.Ok? ==> r.value == old(Contents)[index]
      ensures r.Ok? ==> Contents == old(Contents)[index := element]
      ensures forall k :: 0 <= k < |nodes| ==> nodes[k].next == old(nodes[k].next) && nodes[k].prev == old(nodes[k].prev)
    {
      var check := CheckIndex(index, size);
      if check.Fail? {
        return Err(check.error);
      }
      var node := head;
      var i := 0;
      while i < index
        invariant 0 <= i <= index
        invariant node == nodes[i]
      {
        node := node.next;
        i := i + 1;
      }
      var oldValue := node.value;
      node.value := element;
      Contents := Contents[index := element];
      r := Ok(oldValue);
    }

    /** `remove(index)`: after `checkIndex`, walks to the node at `index` and
        unlinks it. Only an interior node comes out: at index 0 its null
        `prev` throws NullPointerException before anything changes, and at the
        last index of a longer list `prev.next` is first cut to null and then
        its null `next` throws, leaving `tail` and `size` as they were and the
        list broken. */
    method Remove(index: int) returns (r: Result<Ref<T>>)
      requires Valid()
      modifies this, nodes
      ensures r.Ok? <==> 0 < index < old(size) - 1
      ensures r.Err? ==> r.error == if 0 <= index < old(size) then NullPointer else IndexOutOfBounds(index, old(size))
      ensures r.Ok? ==> Valid() && r.value == old(Contents)[index]
      ensures r.Ok? ==> Contents == old(Contents)[..index] + old(Contents)[index + 1..]
      ensures r.Ok? ==> nodes == old(nodes)[..index] + old(nodes)[index + 1..]
      ensures r.Ok? ==> modCount == old(modCount) + 1
      ensures r.Err? && !(0 < index == old(size) - 1) ==> Valid() && unchanged(this) && unchanged(nodes)
      ensures 0 < index == old(size) - 1 ==> unchanged(this) && !Valid()
      ensures 0 < index == old(size) - 1 ==>
                nodes[index - 1].next == null && nodes[index - 1].value == old(nodes[index - 1].value) && nodes[index - 1].prev == old(nodes[index - 1].prev)
      ensures 0 < index == old(size) - 1 ==>
                forall k :: 0 <= k < |nodes| && k != index - 1 ==> unchanged(nodes[k])
    {
      var check := CheckIndex(index, size);
      if check.Fail? {
        return Err(check.error);
      }
      ghost var ns, cs := nodes, Contents;
      var node := head;
      var i := 0;
      while i < index
        invariant 0 <= i <= index
        invariant node == nodes[i]
      {
        node := node.next;
        i := i + 1;
      }
      var oldValue := node.value;
      // node.prev.next = node.next
      var prevNode := node.prev;
      assert prevNode == if index == 0 then null else nodes[index - 1];
      if prevNode == null {
        return Err(NullPointer);
      }
      prevNode.next := node.next;
      // node.next.prev = node.prev
      var nextNode := node.next;
      assert nextNode == if index == size - 1 then null else nodes[index + 1];
      if nextNode == null {
        return Err(NullPointer);
      }
      nextNode.prev := node.prev;
      forall k | 0 <= k < |ns|
        ensures ns[k].value == old(ns[k].value)
        ensures k != index - 1 ==> ns[k].next == old(ns[k].next)
        ensures k != index + 1 ==> ns[k].prev == old(ns[k].prev)
      {
        assert k != index - 1 ==> ns[k] != ns[index - 1];
        assert k != index + 1 ==> ns[k] != ns[index + 1];
      }
      size := size - 1;
      modCount := modCount + 1;
      nodes := ns[..index] + ns[index + 1..];
      Contents := cs[..index] + cs[index + 1..];
      RemovedValid(this, index);
      r := Ok(oldValue);
    }

    /** `subList(from, to)`: after `checkRange`, a new list object whose
        `head` is the node at `from` and whose `tail` is found by walking
        `prev` from that node `to - from - 1` times; that walk passes the
        first node when `to - from - 1 > from + 1` and throws
        NullPointerException. The result shares its nodes with this list,
        holds `Contents[from..to]`, and its `tail` is the node at `to - 1`
        only for a range of length one. */
    method SubList(from: int, to: int) returns (r: Result<MyLinkedList<T>>)
      requires Valid()
      ensures r.Ok? <==> CheckRange(from, to, size).Pass? && to - from <= from + 2
      ensures CheckRange(from, to, size).Fail? ==> r == Err(CheckRange(from, to, size).error)
      ensures CheckRange(from, to, size).Pass? && to - from > from + 2 ==> r == Err(NullPointer)
      ensures r.Ok? ==> fresh(r.value) && r.value.Chain() && r.value.modCount == 0
      ensures r.Ok? ==> r.value.size == to - from && r.value.Contents == Contents[from..to]
      ensures r.Ok? ==> r.value.nodes == nodes[from..to]
      ensures r.Ok? ==> r.value.head == if from < size then nodes[from] else null
      ensures r.Ok? ==>
                r.value.tail == (if to == from then r.value.head
                                 else if to - from - 1 <= from then nodes[2 * from - to + 1]
                                 else null)
      ensures r.Ok? && from < to ==> (r.value.tail == nodes[to - 1] <==> to - from == 1)
    {
      var check := CheckRange(from, to, size);
      if check.Fail? {
        return Err(check.error);
      }
      var firstNode := head;
      var i := 0;
      while i < from
        invariant 0 <= i <= from
        invariant firstNode == if i < |nodes| then nodes[i] else null
      {
        firstNode := firstNode.next;
        i := i + 1;
      }
      var lastNode := firstNode;
      i := 0;
      while i < to - from - 1
        invariant 0 <= i
        invariant to - from - 1 > 0 ==> i <= to - from - 1 && i <= from + 1 && lastNode == if i <= from then nodes[from - i] else null
        invariant to - from - 1 <= 0 ==> i == 0 && lastNode == firstNode
      {
        if lastNode == null {
          return Err(NullPointer);
        }
        lastNode := lastNode.prev;
        i := i + 1;
      }
      var list := new MyLinkedList();
      list.head := firstNode;
      list.tail := lastNode;
      list.size := to - from;
      list.nodes := nodes[from..to];
      list.Contents := Contents[from..to];
      r := Ok(list);
    }

    /** `equals(o)`, where `o == null` also stands for an object that is not
        a `MyLinkedList`: `run` and `orun` are the two chains from `head` to
        null. They are walked in step, every pair of values is compared
        without stopping at a mismatch, and the answer is false at once if
        `orun` runs out first; otherwise it is `size == o.size` and the values
        of `run` being the first values of `orun`. On well-formed lists that
        is equality of the contents. */
    method Equals(o: MyLinkedList?<T>, ghost run: seq<Node<T>>, ghost orun: seq<Node<T>>) returns (r: bool)
      requires ForwardRun(run) && (o != null ==> o.ForwardRun(orun))
      ensures r <==> (o == this ||
                      (o != null && |run| <= |orun| && size == o.size && ValuesOf(run) == ValuesOf(orun)[..|run|]))
      ensures Valid() && run == nodes && (o != null ==> o.Valid() && orun == o.nodes) ==>
                (r <==> o != null && Contents == o.Contents)
    {
      var expectedModCount := modCount;
      if this == o {
        return true;
      }
      if o == null {
        return false;
      }
      ghost var vs, ws := ValuesOf(run), ValuesOf(orun);
      r := size == o.size;
      var thisNode := head;
      var thatNode := o.head;
      ghost var i := 0;
      while thisNode != null
        invariant 0 <= i <= |run| && i <= |orun|
        invariant thisNode == if i < |run| then run[i] else null
        invariant thatNode == if i < |orun| then orun[i] else null
        invariant r <==> size == o.size && vs[..i] == ws[..i]
        decreases |run| - i
      {
        if thatNode != null {
          assert vs[..i + 1] == vs[..i] + [thisNode.value];
          assert ws[..i + 1] == ws[..i] + [thatNode.value];
          r := r && thisNode.value == thatNode.value;
        } else {
          return false;
        }
        thisNode := thisNode.next;
        thatNode := thatNode.next;
        i := i + 1;
      }
      assert vs[..i] == vs;
      if Valid() && run == nodes && o.Valid() && orun == o.nodes {
        ValidForwardRun();
        o.ValidForwardRun();
        assert r ==> ws[..i] == ws;
      }
      var check := EqualsModCount(expectedModCount);
      assert check.Pass?;
    }

    /** `equals` as its documentation describes it: `o` is a list of the
        same size whose values are pairwise equal to these, in order. It walks
        `size` nodes of each chain, so it needs only `Chain()` and also
        compares lists `subList` returned by their own values. */
    method SizedEquals(o: MyLinkedList?<T>) returns (r: bool)
      requires Chain() && (o != null ==> o.Chain())
      ensures r <==> o != null && Contents == o.Contents
    {
      var expectedModCount := modCount;
      if this == o {
        return true;
      }
      if o == null || size != o.size {
        return false;
      }
      r := true;
      var thisNode := head;
      var thatNode := o.head;
      var i := 0;
      while i < size
        invariant 0 <= i <= size
        invariant i < size ==> thisNode == nodes[i] && thatNode == o.nodes[i]
        invariant r <==> Contents[..i] == o.Contents[..i]
      {
        assert Contents[..i + 1] == Contents[..i] + [thisNode.value];
        assert o.Contents[..i + 1] == o.Contents[..i] + [thatNode.value];
        r := r && thisNode.value == thatNode.value;
        thisNode := thisNode.next;
        thatNode := thatNode.next;
        i := i + 1;
      }
      assert Contents[..size] == Contents && o.Contents[..size] == o.Contents;
      var check := EqualsModCount(expectedModCount);
      assert check.Pass?;
    }

    /** `hashCode()`: `Objects.hash(size)` plus `Objects.hash(v)` for every
        value met walking `next` from `head` to null (`run`), in 32-bit
        arithmetic; on a well-formed list that is `LinkedHash` of the
        contents. It changes nothing, so the modCount re-check always passes. */
    method HashCode(h: T -> Word, ghost run: seq<Node<T>>) returns (hash: Word)
      requires ForwardRun(run)
      ensures hash == IntWord(ObjectsHash(IntWord(size)) + SumHash(h, ValuesOf(run)))
      ensures Valid() && run == nodes ==> hash == LinkedHash(h, Contents)
    {
      var expectedModCount := modCount;
      ghost var vs := ValuesOf(run);
      var base := ObjectsHash(IntWord(size));
      hash := base;
      var node := head;
      ghost var i := 0;
      while node != null
        invariant 0 <= i <= |run|
        invariant node == if i < |run| then run[i] else null
        invariant hash == WalkHash(h, base, vs, i)
        decreases |run| - i
      {
        assert node.value == vs[i];
        hash := IntWord(hash + ObjectsHash(Hash(h, node.value)));
        node := node.next;
        i := i + 1;
      }
      RunHash(h, run, hash);
      var check := EqualsModCount(expectedModCount);
      assert check.Pass?;
    }

    /** `equalsModCount(expected)`: ConcurrentModificationException exactly
        when `modCount` has moved away from `expected`. It changes nothing. */
    function EqualsModCount(expected: int): (r: Outcome)
      reads this
      ensures r.Pass? <==> modCount == expected
      ensures r.Fail? ==> r.error == ConcurrentModification
    {
      if modCount != expected then Fail(ConcurrentModification) else Pass
    }

    /** `size()`: the number of elements. */
    method Size() returns (n: int)
      requires Chain()
      ensures n == |Contents|
    {
      n := size;
    }
  }

  /** `add(index, e)` keeps a list well formed: if, from a well-formed state
      of `l`, only the links between its nodes at `index - 1` and `index`
      were redirected through the fresh node `cur`, and the fields of `l`
      were updated to match, `l` is well formed. */
  twostate lemma InsertedValid<T>(l: MyLinkedList<T>, new index: int, new cur: Node<T>)
    requires old(l.Valid()) && 0 < index < |old(l.nodes)| && fresh(cur)
    requires old(l.nodes)[index - 1].next == cur && cur.next == old(l.nodes)[index]
    requires old(l.nodes)[index].prev == cur && cur.prev == old(l.nodes)[index - 1]
    requires forall k :: 0 <= k < |old(l.nodes)| ==> old(l.nodes)[k].value == old(l.nodes[k].value)
    requires forall k :: 0 <= k < |old(l.nodes)| && k != index - 1 ==> old(l.nodes)[k].next == old(l.nodes[k].next)
    requires forall k :: 0 <= k < |old(l.nodes)| && k != index ==> old(l.nodes)[k].prev == old(l.nodes[k].prev)
    requires l.nodes == old(l.nodes)[..index] + [cur] + old(l.nodes)[index..]
    requires l.Contents == old(l.Contents)[..index] + [cur.value] + old(l.Contents)[index..]
    requires l.size == old(l.size) + 1 && l.head == old(l.head) && l.tail == old(l.tail)
    ensures l.Valid()
  {
    var ns, cs := old(l.nodes), old(l.Contents);
    SpliceIn(ns, cs, index, cur, cur.value);
    assert l.nodes[0] == ns[0] && l.nodes[|l.nodes| - 1] == ns[|ns| - 1];
  }

  /** `remove(index)` of an interior node keeps a list well formed: if, from
      a well-formed state of `l`, only its nodes at `index - 1` and
      `index + 1` were linked to each other, and the fields of `l` were
      updated to match, `l` is well formed. */
  twostate lemma RemovedValid<T>(l: MyLinkedList<T>, new index: int)
    requires old(l.Valid()) && 0 < index < |old(l.nodes)| - 1
    requires old(l.nodes)[index - 1].next == old(l.nodes)[index + 1]
    requires old(l.nodes)[index + 1].prev == old(l.nodes)[index - 1]
    requires forall k :: 0 <= k < |old(l.nodes)| ==> old(l.nodes)[k].value == old(l.nodes[k].value)
    requires forall k :: 0 <= k < |old(l.nodes)| && k != index - 1 ==> old(l.nodes)[k].next == old(l.nodes[k].next)
    requires forall k :: 0 <= k < |old(l.nodes)| && k != index + 1 ==> old(l.nodes)[k].prev == old(l.nodes[k].prev)
    requires l.nodes == old(l.nodes)[..index] + old(l.nodes)[index + 1..]
    requires l.Contents == old(l.Contents)[..index] + old(l.Contents)[index + 1..]
    requires l.size == old(l.size) - 1 && l.head == old(l.head) && l.tail == old(l.tail)
    ensures l.Valid()
  {
    var ns, cs := old(l.nodes), old(l.Contents);
    SpliceOut(ns, cs, index);
    assert l.nodes[0] == ns[0] && l.nodes[|l.nodes| - 1] == ns[|ns| - 1];
  }

  /** A client of `subList`: where it succeeds, the value `k` steps into the
      sub-list is the value `from + k` steps into the source. */
  method SubListGetAgrees<T(==)>(list: MyLinkedList<T>, from: int, to: int, k: int) returns (a: Result<Ref<T>>, b: Result<Ref<T>>)
    requires list.Valid() && 0 <= from <= to <= list.size && to - from <= from + 2
    requires 0 <= k < to - from
    ensures a.Ok? && a == b
  {
    var sub := list.SubList(from, to);
    a := sub.value.Get(k);
    b := list.Get(from + k);
  }

  /** The `equals` asymmetry, in general: a list whose forward run from
      `head` goes on past its `size` nodes (a sub-list) and a separate list
      holding the same values. `equals` from the sub-list is false, because
      its walk finds the other chain ended first; from the other list it is
      true. (`SizedEquals` is true both ways: its result is equality of the
      contents.) */
  method EqualsOverrun<T(==)>(sub: MyLinkedList<T>, x: MyLinkedList<T>, ghost run: seq<Node<T>>)
    returns (forward: bool, backward: bool)
    requires sub != x && sub.Chain() && sub.ForwardRun(run) && x.Valid()
    requires sub.Contents == x.Contents && |x.nodes| < |run| && ValuesOf(run)[..|x.nodes|] == x.Contents
    ensures !forward && backward
  {
    x.ValidForwardRun();
    forward := sub.Equals(x, run, x.nodes);
    backward := x.Equals(sub, x.nodes, run);
  }

  /** The same, on values: `subList(1, 3)` of the list [1, 2, 3, 4] and a
      separate list [2, 3]. */
  method SubListEqualsAsymmetric() returns (forward: bool, backward: bool)
    ensures !forward && backward
  {
    var x := new MyLinkedList.FromCollection([Obj(2), Obj(3)]);
    var source := new MyLinkedList.FromCollection([Obj(1), Obj(2), Obj(3), Obj(4)]);
    var r := source.SubList(1, 3);
    var sub := r.value;
    source.SuffixRun(sub, 1);
    ghost var run := source.nodes[1..];
    assert ValuesOf(run) == source.Contents[1..];
    forward, backward := EqualsOverrun(sub, x, run);
  }
}
