/** The parts of the Java runtime that both list classes lean on: nullable
    references, the exceptions they raise, `Objects.checkIndex`, and the
    32-bit `int` arithmetic of `hashCode`. */
module Runtime {

  /** A Java reference of static type `T`: either `null` or an object.
      Both list classes store `Ref<T>`, so a `null` element and a `null`
      buffer slot are both expressible. */
  datatype Ref<T> = Null | Obj(obj: T)

  /** The exceptions the two list classes throw, with the values their
      messages report. */
  datatype Error =
    | IllegalArgument(capacity: int)          // negative initial capacity
    | IndexOutOfBounds(index: int, length: int) // Objects.checkIndex
    | FromAfterTo(from: int, to: int)         // checkRange: from > to
    | FromNegative(from: int)                 // checkRange: from < 0
    | ToAfterSize(to: int)                    // checkRange: to > size
    | NullPointer                             // a field access through null
    | ConcurrentModification                  // equalsModCount: modCount moved

  /** The value of a Java method that can throw. */
  datatype Result<R> = Ok(value: R) | Err(error: Error)

  /** The completion of a Java `void` method that can throw. */
  datatype Outcome = Pass | Fail(error: Error)

  /** `Objects.checkIndex(index, length)`: passes exactly for `0 <= index < length`. */
  function CheckIndex(index: int, length: int): (r: Outcome)
    ensures r.Pass? <==> 0 <= index < length
    ensures r.Fail? ==> r.error == IndexOutOfBounds(index, length)
  {
    if index < 0 || index >= length then Fail(IndexOutOfBounds(index, length)) else Pass
  }

  /** `checkRange(from, to)` of both list classes (they are the same code):
      the three bounds are tested in this order, each with its own message. */
  function CheckRange(from: int, to: int, size: int): (r: Outcome)
    ensures r.Pass? <==> 0 <= from <= to <= size
    ensures from > to ==> r == Fail(FromAfterTo(from, to))
    ensures from <= to && from < 0 ==> r == Fail(FromNegative(from))
    ensures 0 <= from <= to && to > size ==> r == Fail(ToAfterSize(to))
  {
    if from > to then Fail(FromAfterTo(from, to))
    else if from < 0 then Fail(FromNegative(from))
    else if to > size then Fail(ToAfterSize(to))
    else Pass
  }

  /** 2^32: Java `int` arithmetic is arithmetic modulo this number. */
  const Modulus: int := 0x1_0000_0000

  /** A 32-bit word, read as unsigned: the bit pattern of a Java `int`. */
  type Word = x: int | 0 <= x < Modulus

  /** `e == null ? 0 : e.hashCode()`, where `h` stands for the element
      class's own `hashCode`. */
  function Hash<T>(h: T -> Word, e: Ref<T>): Word
  {
    match e
    case Null => 0
    case Obj(x) => h(x)
  }

  /** `Objects.hash(v)` for a single value whose hash is `x`: `31 * 1 + x`. */
  function ObjectsHash(x: Word): Word
  {
    (31 + x) % Modulus
  }

  /** The word of a Java `int` value (`Integer.hashCode` of it). */
  function IntWord(n: int): Word
  {
    n % Modulus
  }
}
