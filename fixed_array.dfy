/** `fixed_array_t<T>` of tools/model_converter/src/main.cpp: an owned heap
    buffer with a live element count. A null `data` is the uninitialised
    state; once allocated the buffer is only ever shrunk, never grown. */
module FixedArrays {

  class FixedArray<T(0)> {
    var count: nat
    var data: array?<T>

    /** Object invariant: an uninitialised buffer is empty, a live one holds
        at least `count` elements. */
    ghost predicate Valid()
      reads this
    {
      (data == null ==> count == 0) && (data != null ==> count <= data.Length)
    }

    /** The live elements `data[0 .. count)`. */
    function Contents(): (s: seq<T>)
      reads this, data
      requires Valid()
      ensures |s| == count
    {
      if data == null then [] else data[..count]
    }

    /** The default member initialisers `count = 0; data = nullptr`. */
    constructor ()
      ensures Valid() && data == null && count == 0
    {
      count := 0;
      data := null;
    }

    /** `init`: only an uninitialised buffer may be initialised; it gets
        `initialCount` elements, all the all-zero value (`memset 0`), which
        the caller names as `zero`. */
    method Init(initialCount: nat, zero: T)
      requires Valid() && data == null
      modifies this
      ensures Valid() && data != null && fresh(data)
      ensures count == initialCount && data.Length == initialCount
      ensures Contents() == seq(initialCount, _ => zero)
    {
      count := initialCount;
      data := new T[initialCount](_ => zero);
    }

    /** `deinit`: frees a live buffer and returns to the uninitialised state. */
    method Deinit()
      requires Valid() && data != null
      modifies this
      ensures Valid() && data == null && count == 0
    {
      data := null;
      count := 0;
    }

    /** `resize`: a live, non-empty buffer shrinks to `newCount` elements and
        keeps its first `newCount` elements; the storage is not reallocated. */
    method Resize(newCount: nat)
      requires Valid() && data != null
      requires count > 0 && newCount <= count
      modifies this
      ensures Valid() && data == old(data)
      ensures count == newCount
      ensures Contents() == old(Contents())[..newCount]
    {
      count := newCount;
    }
  }
}
