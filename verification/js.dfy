/** Values as the component's JavaScript observes them. */
module Js {

  /** The result of reading an array element. JavaScript yields `undefined`
      for every index outside the array, negative ones included, instead of
      raising an error. */
  datatype Slot<+V> = Undefined | Defined(value: V)

  /** A prop the caller may leave out. */
  datatype Prop<+T> = Omitted | Passed(value: T)

  /** `a[k]` with JavaScript's out-of-range semantics. */
  function Read<V>(a: seq<V>, k: int): Slot<V> {
    if 0 <= k < |a| then Defined(a[k]) else Undefined
  }
}
