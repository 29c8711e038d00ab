/** `MyArrayList`: a list kept in a contiguous buffer `elementData` whose
    first `size` slots hold the elements and whose other slots hold null. */
module ArrayLists {
  import opened Runtime

  /** `DEFAULT_CAPACITY`. */
  const DefaultCapacity: nat := 10

  /** The buffer length `grow` allocates: 10 when the old length is below 10,
      otherwise twice the old length (so 6 grows to 10, not to 12). */
  function GrownLength(length: nat): (r: nat)
    ensures r > length && r >= DefaultCapacity
  {
    if length < DefaultCapacity then DefaultCapacity else length * 2
  }

  /** One step of `hashCode(to)`'s loop: `31 * hash + x` in 32-bit arithmetic. */
  function FoldStep(hash: Word, x: Word): Word
  {
    (31 * hash + x) % Modulus
  }

  /** `hashCode(to)` over the elements `s`: start from 1 and apply
      `FoldStep` with each element's hash, left to right. */
  function PolyHash<T>(h: T -> Word, s: seq<Ref<T>>): Word
  {
    if s == [] then 1 else FoldStep(PolyHash(h, s[..|s| - 1]), Hash(h, s[|s| - 1]))
  }

  /** The carry of one fold step: `31 * a + c` is `k` times 2^32 plus the step. */
  lemma FoldStepCarry(a: Word, c: Word) returns (k: int)
    ensures 31 * a + c == k * 0x1_0000_0000 + FoldStep(a, c)
  {
    k := (31 * a + c) / 0x1_0000_0000;
  }

  /** A fold step with the same element keeps two distinct hashes distinct:
      31 is odd, hence invertible modulo 2^32 (3186588639 * 31 == 1 + 23 * 2^32). */
  lemma FoldStepInjective(a: Word, b: Word, c: Word)
    requires FoldStep(a, c) == FoldStep(b, c)
    ensures a == b
  {
    var k := FoldStepCarry(a, c);
    var k' := FoldStepCarry(b, c);
    var d := a - b;
    assert 31 * d == (k - k') * 0x1_0000_0000;
    assert 3186588639 * (31 * d) == d + 23 * 0x1_0000_0000 * d;
    assert d == 0x1_0000_0000 * (3186588639 * (k - k') - 23 * d);
  }

  /** 15 is invertible modulo 2^31 (1861152495 * 15 == 1 + 13 * 2^31), so
      `15 * d` divisible by 2^31 makes `d` divisible by 2^31. */
  lemma FifteenCancels(d: int, q: int)
    requires 15 * d == q * 0x8000_0000
    ensures d % 0x8000_0000 == 0
  {
    assert 1861152495 * (15 * d) == d + 13 * 0x8000_0000 * d;
    assert d == 0x8000_0000 * (1861152495 * q - 13 * d);
  }

  /** Two fold steps over neighbours taken in either order end in the same
      word only when the two hashes agree modulo 2^31 (30 * 2^31 is 0
      modulo 2^32, and 15 is invertible modulo 2^31). */
  lemma SwapFoldAgreement(z: Word, ha: Word, hb: Word)
    requires FoldStep(FoldStep(z, ha), hb) == FoldStep(FoldStep(z, hb), ha)
    ensures (ha - hb) % 0x8000_0000 == 0
  {
    var u, v := FoldStep(z, ha), FoldStep(z, hb);
    var ku := FoldStepCarry(z, ha);
    var kv := FoldStepCarry(z, hb);
    var kx := FoldStepCarry(u, hb);
    var ky := FoldStepCarry(v, ha);
    var q := kx - ky + 31 * (ku - kv);
    assert 30 * (ha - hb) == q * 0x1_0000_0000;
    FifteenCancels(ha - hb, q);
  }

  /** One step of the fold: the hash of `s + [e]` from the hash of `s`. */
  lemma PolyHashSnoc<T>(h: T -> Word, s: seq<Ref<T>>, e: Ref<T>)
    ensures PolyHash(h, s + [e]) == FoldStep(PolyHash(h, s), Hash(h, e))
  {
    var t := s + [e];
    assert t[..|t| - 1] == s;
  }

  /** Appending the same elements to two lists whose hashes differ keeps
      their hashes different. */
  lemma {:induction false} PolyHashAppendKeepsDifference<T>(h: T -> Word, s: seq<Ref<T>>, t: seq<Ref<T>>, q: seq<Ref<T>>)
    requires PolyHash(h, s) != PolyHash(h, t)
    ensures PolyHash(h, s + q) != PolyHash(h, t + q)
    decreases |q|
  {
    if q == [] {
      assert s + q == s && t + q == t;
    } else {
      var q', last := q[..|q| - 1], q[|q| - 1];
      PolyHashAppendKeepsDifference(h, s, t, q');
      assert s + q == (s + q') + [last] && t + q == (t + q') + [last];
      PolyHashSnoc(h, s + q', last);
      PolyHashSnoc(h, t + q', last);
      if PolyHash(h, s + q) == PolyHash(h, t + q) {
        FoldStepInjective(PolyHash(h, s + q'), PolyHash(h, t + q'), Hash(h, last));
      }
    }
  }

  /** The array list's hash depends on order: swapping two neighbours whose
      hashes differ modulo 2^31 changes the hash of the list. */
  lemma PolyHashOrderSensitive<T>(h: T -> Word, p: seq<Ref<T>>, a: Ref<T>, b: Ref<T>, q: seq<Ref<T>>)
    requires (Hash(h, a) - Hash(h, b)) % 0x8000_0000 != 0
    ensures PolyHash(h, p + [a, b] + q) != PolyHash(h, p + [b, a] + q)
  {
    assert p + [a, b] == (p + [a]) + [b] && p + [b, a] == (p + [b]) + [a];
    PolyHashSnoc(h, p, a);
    PolyHashSnoc(h, p, b);
    PolyHashSnoc(h, p + [a], b);
    PolyHashSnoc(h, p + [b], a);
    if PolyHash(h, p + [a, b]) == PolyHash(h, p + [b, a]) {
      SwapFoldAgreement(PolyHash(h, p), Hash(h, a), Hash(h, b));
    }
    PolyHashAppendKeepsDifference(h, p + [a, b], p + [b, a], q);
  }

  /** The buffer `d`, whose first `size` slots hold `elements`, after
      `add(index, e)` has shifted `[index, size)` one slot right and stored
      `e` at `index`: its first `size + 1` slots are `elements` with `e`
      inserted at `index`, and the slots beyond are untouched. */
  lemma ShiftRightInsert<E>(d: seq<E>, elements: seq<E>, index: int, e: E)
    requires 0 <= index <= |elements| < |d| && d[..|elements|] == elements
    ensures var size := |elements|;
      var t := (d[..index + 1] + d[index..size] + d[size + 1..])[index := e];
      && |t| == |d|
      && t[..size + 1] == elements[..index] + [e] + elements[index..]
      && forall k :: size < k < |d| ==> t[k] == d[k]
  {
    var size := |elements|;
    var t := (d[..index + 1] + d[index..size] + d[size + 1..])[index := e];
    assert t[..size + 1] == elements[..index] + [e] + elements[index..];
  }

  /** The buffer `d`, whose first `size` slots hold `elements`, after
      `remove(index)` has shifted `[index + 1, size)` one slot left and put
      `e` in slot `size - 1`: its first `size - 1` slots are `elements`
      without the one at `index`, and the slots from `size` on are untouched. */
  lemma ShiftLeftRemove<E>(d: seq<E>, elements: seq<E>, index: int, e: E)
    requires 0 <= index < |elements| <= |d| && d[..|elements|] == elements
    ensures var size := |elements|;
      var t := (d[..index] + d[index + 1..size] + d[size - 1..])[size - 1 := e];
      && |t| == |d|
      && t[..size - 1] == elements[..index] + elements[index + 1..]
      && t[size - 1] == e
      && forall k :: size <= k < |d| ==> t[k] == d[k]
  {
    var size := |elements|;
    var t := (d[..index] + d[index + 1..size] + d[size - 1..])[size - 1 := e];
    assert t[..size - 1] == elements[..index] + elements[index + 1..];
  }

  /** `System.arraycopy(src, srcPos, dest, destPos, length)` for arguments
      in bounds: `dest[destPos..destPos + length]` receives the old
      `src[srcPos..srcPos + length]`, as if copied through a temporary
      array, so an overlapping copy within one array shifts its range intact. */
  method ArrayCopy<E>(src: array<E>, srcPos: int, dest: array<E>, destPos: int, length: int)
    requires 0 <= length && 0 <= srcPos && srcPos + length <= src.Length
    requires 0 <= destPos && destPos + length <= dest.Length
    modifies dest
    ensures dest[..] == old(dest[..destPos]) + old(src[srcPos..srcPos + length]) + old(dest[destPos + length..])
  {
    ghost var s, d := src[..], dest[..];
    if srcPos < destPos {
      // copy from the right end, so no source slot is overwritten before it is read
      var i := length;
      while i > 0
        invariant 0 <= i <= length
        invariant forall k :: 0 <= k < srcPos + i ==> src[k] == s[k]
        invariant forall k :: 0 <= k < destPos + i ==> dest[k] == d[k]
        invariant forall k :: destPos + i <= k < destPos + length ==> dest[k] == s[srcPos + k - destPos]
        invariant forall k :: destPos + length <= k < dest.Length ==> dest[k] == d[k]
      {
        i := i - 1;
        dest[destPos + i] := src[srcPos + i];
      }
    } else {
      var i := 0;
      while i < length
        invariant 0 <= i <= length
        invariant forall k :: srcPos + i <= k < src.Length ==> src[k] == s[k]
        invariant forall k :: 0 <= k < destPos ==> dest[k] == d[k]
        invariant forall k :: destPos <= k < destPos + i ==> dest[k] == s[srcPos + k - destPos]
        invariant forall k :: destPos + i <= k < dest.Length ==> dest[k] == d[k]
      {
        dest[destPos + i] := src[srcPos + i];
        i := i + 1;
      }
    }
    assert dest[..] == d[..destPos] + s[srcPos..srcPos + length] + d[destPos + length..];
  }

  class MyArrayList<T(==)> {
    var elementData: array<Ref<T>>
    var size: nat
    /** Structural modifications so far; Java's `int` wrap-around is not modelled. */
    var modCount: int

    /** The slots `[0, size)` are the elements and every other slot is null. */
    ghost predicate Valid()
      reads this, elementData
    {
      && size <= elementData.Length
      && forall i :: size <= i < elementData.Length ==> elementData[i] == Null
    }

    /** The elements of the list, in order. */
    ghost function Contents(): seq<Ref<T>>
      reads this, elementData
      requires Valid()
    {
      elementData[..size]
    }

    /** `MyArrayList()`: empty, with a buffer of the default capacity. */
    constructor ()
      ensures Valid() && fresh(elementData)
      ensures Contents() == [] && elementData.Length == DefaultCapacity && modCount == 0
    {
      elementData := new Ref<T>[DefaultCapacity](_ => Null);
      size := 0;
      modCount := 0;
    }

    /** `MyArrayList(int capacity)`: a negative capacity is an
        IllegalArgumentException; otherwise an empty list whose buffer has
        exactly `capacity` slots. */
    static method WithCapacity(capacity: int) returns (r: Result<MyArrayList<T>>)
      ensures r.Err? <==> capacity < 0
      ensures r.Err? ==> r.error == IllegalArgument(capacity)
      ensures r.Ok? ==> fresh(r.value) && fresh(r.value.elementData) && r.value.Valid()
      ensures r.Ok? ==> r.value.Contents() == [] && r.value.elementData.Length == capacity
      ensures r.Ok? ==> r.value.modCount == 0
    {
      if capacity < 0 {
        return Err(IllegalArgument(capacity));
      }
      var list := new MyArrayList();
      list.elementData := new Ref<T>[capacity](_ => Null);
      r := Ok(list);
    }

    /** `MyArrayList(List list)`: the elements of `list` in order; a non-empty
        `list` gets a buffer of exactly its length, which `addAll` then fills
        without growing, and leaves `modCount` at `|list|`. */
    constructor FromList(list: seq<Ref<T>>)
      ensures Valid() && fresh(elementData)
      ensures Contents() == list && modCount == |list|
      ensures elementData.Length == if list == [] then DefaultCapacity else |list|
    {
      elementData := new Ref<T>[DefaultCapacity](_ => Null);
      size := 0;
      modCount := 0;
      new;
      if list != [] {
        elementData := new Ref<T>[|list|](_ => Null);
        var _ := AddAll(list);
      }
    }

    /** `addAll(list)`: appends every element of `list` by `add`, and reports
        whether there was any. */
    method AddAll(list: seq<Ref<T>>) returns (modified: bool)
      requires Valid()
      modifies this, elementData
      ensures Valid()
      ensures modified <==> list != []
      ensures Contents() == old(Contents()) + list
      ensures modCount == old(modCount) + |list|
      ensures elementData == old(elementData) || fresh(elementData)
      ensures old(size) + |list| <= old(elementData.Length) ==> elementData == old(elementData)
    {
      modified := false;
      var i := 0;
      while i < |list|
        invariant 0 <= i <= |list|
        invariant Valid()
        invariant Contents() == old(Contents()) + list[..i]
        invariant modCount == old(modCount) + i
        invariant modified <==> i > 0
        invariant elementData == old(elementData) || fresh(elementData)
        invariant old(size) + |list| <= old(elementData.Length) ==> elementData == old(elementData)
      {
        var _ := Add(list[i]);
        modified := true;
        i := i + 1;
      }
      assert list[..i] == list;
    }

    /** `get(index)`: the element at `index`, or IndexOutOfBoundsException. */
    method Get(index: int) returns (r: Result<Ref<T>>)
      requires Valid()
      ensures r.Ok? <==> 0 <= index < |Contents()|
      ensures r.Ok? ==> r.value == Contents()[index]
      ensures r.Err? ==> r.error == IndexOutOfBounds(index, size)
    {
      var check := CheckIndex(index, size);
      if check.Fail? {
        return Err(check.error);
      }
      r := Ok(elementData[index]);
    }

    /** `add(e)`: appends `e`, growing first only when the buffer is full. */
    method Add(e: Ref<T>) returns (r: bool)
      requires Valid()
      modifies this, elementData
      ensures Valid() && r
      ensures Contents() == old(Contents()) + [e]
      ensures modCount == old(modCount) + 1
      ensures old(size) < old(elementData.Length) ==> elementData == old(elementData)
      ensures old(size) == old(elementData.Length) ==>
                fresh(elementData) && elementData.Length == GrownLength(old(elementData.Length))
    {
      if elementData.Length <= size {
        Grow();
      }
      elementData[size] := e;
      size := size + 1;
      modCount := modCount + 1;
      r := true;
    }

    /** `add(index, element)`: accepts only `0 <= index < size` (so not
        `index == size`), then always grows, since `elementData.length >= size`
        always holds, shifts `[index, size)` one slot right and stores
        `element` at `index`. */
    method AddAt(index: int, element: Ref<T>) returns (r: Outcome)
      requires Valid()
      modifies this, elementData
      ensures Valid()
      ensures r.Pass? <==> 0 <= index < old(size)
      ensures r.Fail? ==> r.error == IndexOutOfBounds(index, old(size))
      ensures r.Fail? ==> unchanged(this) && unchanged(elementData)
      ensures r.Pass? ==> Contents() == old(Contents())[..index] + [element] + old(Contents())[index..]
      ensures r.Pass? ==> modCount == old(modCount) + 1
      ensures r.Pass? ==> fresh(elementData) && elementData.Length == GrownLength(old(elementData.Length))
    {
      r := CheckIndex(index, size);
      if r.Fail? {
        return;
      }
      ghost var before := Contents();
      if elementData.Length >= size {
        Grow();
      } else {
        // the buffer is never shorter than `size`
        assert false;
      }
      ghost var d := elementData[..];
      assert forall k :: size <= k < |d| ==> d[k] == Null;
      ArrayCopy(elementData, index, elementData, index + 1, size - index);
      elementData[index] := element;
      ShiftRightInsert(d, before, index, element);
      ghost var t := elementData[..];
      forall k | size < k < elementData.Length
        ensures elementData[k] == Null
      {
        assert elementData[k] == t[k] == d[k];
      }
      modCount := modCount + 1;
      size := size + 1;
      assert Contents() == t[..size] == before[..index] + [element] + before[index..];
    }

    /** `grow()`: a fresh buffer of `GrownLength` slots holding every old slot
        at its old position: the elements where they were, null everywhere
        else (old slots past `size` were already null). */
    method Grow()
      requires Valid()
      modifies this
      ensures Valid() && fresh(elementData)
      ensures elementData.Length == GrownLength(old(elementData.Length))
      ensures Contents() == old(Contents())
      ensures size == old(size) && modCount == old(modCount)
    {
      var newCapacity := GrownLength(elementData.Length);
      var newElementData := new Ref<T>[newCapacity](_ => Null);
      ArrayCopy(elementData, 0, newElementData, 0, elementData.Length);
      elementData := newElementData;
    }

    /** `set(index, element)`: replaces the element at `index` and returns the
        one it replaced; only that slot changes (`size` and `modCount` are
        outside the frame). */
    method Set(index: int, element: Ref<T>) returns (r: Result<Ref<T>>)
      requires Valid()
      modifies elementData
      ensures Valid()
      ensures r.Ok? <==> 0 <= index < size
      ensures r.Err? ==> r.error == IndexOutOfBounds(index, size) && Contents() == old(Contents())
      ensures r.Ok? ==> r.value == old(Contents())[index]
      ensures r.Ok? ==> Contents() == old(Contents())[index := element]
    {
      var check := CheckIndex(index, size);
      if check.Fail? {
        return Err(check.error);
      }
      var previous := elementData[index];
      elementData[index] := element;
      r := Ok(previous);
    }

    /** `remove(index)`: returns the element at `index`, shifts `[index + 1, size)`
        one slot left and nulls the vacated last slot. */
    method Remove(index: int) returns (r: Result<Ref<T>>)
      requires Valid()
      modifies this, elementData
      ensures Valid() && elementData == old(elementData)
      ensures r.Ok? <==> 0 <= index < old(size)
      ensures r.Err? ==> r.error == IndexOutOfBounds(index, old(size))
      ensures r.Err? ==> unchanged(this) && unchanged(elementData)
      ensures r.Ok? ==> r.value == old(Contents())[index]
      ensures r.Ok? ==> Contents() == old(Contents())[..index] + old(Contents())[index + 1..]
      ensures r.Ok? ==> elementData[size] == Null && modCount == old(modCount) + 1
    {
      var check := CheckIndex(index, size);
      if check.Fail? {
        return Err(check.error);
      }
      var removed := elementData[index];
      ghost var d := elementData[..];
      assert forall k :: size <= k < |d| ==> d[k] == Null;
      ArrayCopy(elementData, index + 1, elementData, index, size - index - 1);
      size := size - 1;
      elementData[size] := Null;
      ShiftLeftRemove(d, old(Contents()), index, Null);
      ghost var t := elementData[..];
      forall k | size <= k < elementData.Length
        ensures elementData[k] == Null
      {
        assert elementData[k] == t[k];
      }
      assert Contents() == t[..size];
      modCount := modCount + 1;
      r := Ok(removed);
    }

    /** `subList(from, to)`: after `checkRange`, a new list built from a copy
        of `[from, to)`; it shares no storage with this one, and its
        `modCount` is `to - from` because it is filled by `addAll`. */
    method SubList(from: int, to: int) returns (r: Result<MyArrayList<T>>)
      requires Valid()
      ensures r.Ok? <==> 0 <= from <= to <= size
      ensures r.Err? ==> Fail(r.error) == CheckRange(from, to, size)
      ensures r.Ok? ==> fresh(r.value) && fresh(r.value.elementData) && r.value.Valid()
      ensures r.Ok? ==> r.value.Contents() == Contents()[from..to]
      ensures r.Ok? ==> r.value.modCount == to - from
    {
      var check := CheckRange(from, to, size);
      if check.Fail? {
        return Err(check.error);
      }
      var newData := new Ref<T>[to - from](_ => Null);
      ghost var copied := elementData[from..to];
      assert forall k :: 0 <= k < to - from ==> copied[k] == elementData[from + k] == Contents()[from + k];
      assert copied == Contents()[from..to];
      ArrayCopy(elementData, from, newData, 0, newData.Length);
      assert newData[..] == [] + copied + [];
      var list := new MyArrayList.FromList(newData[..]);
      r := Ok(list);
    }

    /** `hashCode(to)`: the polynomial hash of the first `to` elements. */
    method HashCodeTo(h: T -> Word, to: int) returns (hash: Word)
      requires Valid() && 0 <= to <= size
      ensures hash == PolyHash(h, Contents()[..to])
    {
      ghost var s := Contents();
      hash := 1;
      var i := 0;
      while i < to
        invariant 0 <= i <= to
        invariant hash == PolyHash(h, s[..i])
      {
        var e := elementData[i];
        assert s[..i + 1] == s[..i] + [e];
        PolyHashSnoc(h, s[..i], e);
        hash := FoldStep(hash, Hash(h, e));
        i := i + 1;
      }
    }

    /** `hashCode()`: the polynomial hash of the elements; it changes nothing,
        so the modCount re-check always passes. */
    method HashCode(h: T -> Word) returns (hash: Word)
      requires Valid()
      ensures hash == PolyHash(h, Contents())
    {
      var expectedModCount := modCount;
      hash := HashCodeTo(h, size);
      var check := EqualsModCount(expectedModCount);
      assert check.Pass?;
      assert Contents()[..size] == Contents();
    }

    /** `equals(o)` as written: after `this == o`, the test
        `super.equals(o)` is `Object.equals`, i.e. `this == o` again, so every
        other object is unequal and the element comparison after it never runs. */
    method Equals(o: object?) returns (r: bool)
      ensures r <==> o == this
    {
      var expectedModCount := modCount;
      if this == o {
        return true;
      }
      r := false;
    }

    /** What `equals` documents: `o` is a list of the same size whose elements
        are pairwise equal to these, in order. */
    method StructuralEquals(o: MyArrayList?<T>) returns (r: bool)
      requires Valid() && (o != null ==> o.Valid())
      ensures r <==> o != null && Contents() == o.Contents()
    {
      var expectedModCount := modCount;
      if this == o {
        return true;
      }
      if o == null || size != o.size {
        return false;
      }
      r := true;
      var i := 0;
      while i < size
        invariant 0 <= i <= size
        invariant r <==> Contents()[..i] == o.Contents()[..i]
      {
        assert Contents()[..i + 1] == Contents()[..i] + [elementData[i]];
        assert o.Contents()[..i + 1] == o.Contents()[..i] + [o.elementData[i]];
        r := r && elementData[i] == o.elementData[i];
        i := i + 1;
      }
      assert Contents()[..size] == Contents() && o.Contents()[..size] == o.Contents();
      var check := EqualsModCount(expectedModCount);
      assert check.Pass?;
    }

    /** `equalsModCount(expected)`: ConcurrentModificationException exactly
        when `modCount` has moved away from `expected`. It changes nothing. */
    function EqualsModCount(expected: int): (r: Outcome)
      reads this
      ensures r.Pass? <==> modCount == expected
      ensures r.Fail? ==> r.error == ConcurrentModification
    {
      if modCount != expected then Fail(ConcurrentModification) else Pass
    }

    /** `size()`: the number of elements. */
    method Size() returns (n: int)
      requires Valid()
      ensures n == |Contents()|
    {
      n := size;
    }
  }

  /** The `equals` defect, shown: two distinct lists holding the same single
      element are not `equals`. */
  method EqualContentsNotEqual() returns (a: MyArrayList<int>, b: MyArrayList<int>, same: bool)
    ensures a.Valid() && b.Valid() && a.Contents() == b.Contents() == [Obj(7)]
    ensures !same
  {
    a := new MyArrayList();
    b := new MyArrayList();
    var _ := a.Add(Obj(7));
    var _ := b.Add(Obj(7));
    same := a.Equals(b);
  }
}
