/**
 * The three numeric array tags, `NBTByteArray`, `NBTIntArray` and
 * `NBTLongArray`, each a wrapper around a Java primitive array that it shares
 * with the caller, together with the `NBTArray` interface's index iterator and
 * read-only view.
 */
module Arrays {
  import opened Wrappers
  import opened JavaInts
  import opened Tags
  import opened Values
  import opened Conversion

  // ----- shared helpers -----

  /** Every boxed element is non-null. */
  predicate AllPresent<T>(xs: seq<Option<T>>)
  {
    forall i :: 0 <= i < |xs| ==> xs[i].Some?
  }

  /** The unboxed elements of a boxed array without nulls. */
  function Unboxed<T>(xs: seq<Option<T>>): (r: seq<T>)
    requires AllPresent(xs)
    ensures |r| == |xs| && forall i :: 0 <= i < |xs| ==> xs[i] == Some(r[i])
  {
    seq(|xs|, i requires 0 <= i < |xs| => xs[i].value)
  }

  /**
   * The private `unbox` of each array class: copies element by element, so the
   * first null element throws NullPointerException.
   */
  method Unbox<T(0)>(xs: seq<Option<T>>) returns (r: Result<array<T>, Thrown>)
    ensures r.Success? <==> AllPresent(xs)
    ensures r.Success? ==> fresh(r.value) && r.value[..] == Unboxed(xs)
    ensures r.Failure? ==> r.error == NullPointer
  {
    var primitive := new T[|xs|];
    var i := 0;
    while i < |xs|
      invariant 0 <= i <= |xs|
      invariant forall j :: 0 <= j < i ==> xs[j] == Some(primitive[j])
    {
      if xs[i].None? {
        return Failure(NullPointer);
      }
      primitive[i] := xs[i].value;
      i := i + 1;
    }
    return Success(primitive);
  }

  /**
   * `new T[size]`: a buffer filled with the element type's default value `zero`;
   * a negative size throws NegativeArraySizeException.
   */
  method NewArray<T>(size: int, zero: T) returns (r: Result<array<T>, Thrown>)
    ensures r.Success? <==> size >= 0
    ensures r.Success? ==> fresh(r.value) && r.value[..] == seq(size, _ => zero)
    ensures r.Failure? ==> r.error == NegativeArraySize
  {
    if size < 0 {
      return Failure(NegativeArraySize);
    }
    var a := new T[size](_ => zero);
    return Success(a);
  }

  /** Java's `array.clone()`: a new buffer with the same elements. */
  method CopyOf<T(0)>(a: array<T>) returns (c: array<T>)
    ensures fresh(c) && c[..] == a[..]
  {
    c := new T[a.Length](i requires 0 <= i < a.Length reads a => a[i]);
  }

  // ----- NBTArray: iterator and unmodifiable view -----

  /**
   * The `NBTArray` default iterator: it captures `size()` when created and
   * calls `get(index++)`, so the index advances even when `get` throws.
   */
  class ArrayIterator<T> {
    const source: array<T>
    const size: int
    var index: int

    constructor (source: array<T>)
      ensures this.source == source && size == source.Length && index == 0
    {
      this.source := source;
      size := source.Length;
      index := 0;
    }

    /** `hasNext()` */
    predicate HasNext()
      reads this
      ensures 0 <= index && size == source.Length ==> (HasNext() <==> index < source.Length)
    {
      index < size
    }

    /** `next()`: the element at the current index of the backing array, read now. */
    method Next() returns (r: Result<T, Thrown>)
      modifies this`index
      ensures index == old(index) + 1
      ensures 0 <= old(index) < source.Length ==> r == Success(source[old(index)])
      ensures !(0 <= old(index) < source.Length) ==> r == Failure(IndexOutOfBounds)
    {
      r := if 0 <= index < source.Length then Success(source[index]) else Failure(IndexOutOfBounds);
      index := index + 1;
    }

    /**
     * `forEachRemaining`: `next()` while `hasNext()`. On a fresh iterator over an
     * array whose length has the captured size, it yields every element in
     * index order and stops after exactly `size` calls.
     */
    method Remaining() returns (r: seq<T>)
      requires 0 <= index <= size == source.Length
      modifies this`index
      ensures r == source[old(index)..] && index == size && !HasNext()
    {
      r := [];
      while HasNext()
        invariant old(index) <= index <= size
        invariant r == source[old(index)..index]
        decreases size - index
      {
        var x := Next();
        r := r + [x.value];
      }
    }
  }

  /**
   * `unmodifiableView()`: forwards `size`, `get`, `revert` and iteration to the
   * backing array, refuses `set`, and reports the array's own tag as its
   * element type.
   */
  class ArrayView<T(0)> {
    const source: array<T>
    const arrayTag: Tag

    constructor (source: array<T>, arrayTag: Tag)
      ensures this.source == source && this.arrayTag == arrayTag
    {
      this.source := source;
      this.arrayTag := arrayTag;
    }

    /** `size()`: the backing array's current length. */
    function Size(): (n: nat)
      ensures n == source.Length
    {
      source.Length
    }

    /** `get(index)`: reads the backing array now, so it sees later writes through the original. */
    function Get(index: int): (r: Result<T, Thrown>)
      reads source
      ensures r.Success? <==> 0 <= index < source.Length
      ensures r.Success? ==> r.value == source[index]
      ensures r.Failure? ==> r.error == IndexOutOfBounds
    {
      if 0 <= index < source.Length then Success(source[index]) else Failure(IndexOutOfBounds)
    }

    /** `set(index, element)`: always UnsupportedOperationException, and nothing changes. */
    method Set(index: int, element: Option<T>) returns (r: Result<(), Thrown>)
      ensures r == Failure(UnsupportedOperation)
    {
      r := Failure(UnsupportedOperation);
    }

    /** `getElementType()`: the array's own tag (e.g. INT_ARRAY), not the tag of its elements. */
    function ElementType(): (t: Tag)
      ensures t == arrayTag
    {
      arrayTag
    }

    /** `revert()`: the backing array's fresh copy. */
    method Revert() returns (r: array<T>)
      ensures fresh(r) && r[..] == source[..]
    {
      r := CopyOf(source);
    }

    /** `unmodifiableView()` of a view is the view itself. */
    method UnmodifiableView() returns (v: ArrayView<T>)
      ensures v == this
    {
      v := this;
    }

    /** `iterator()`: the backing array's iterator. */
    method Iterator() returns (it: ArrayIterator<T>)
      ensures fresh(it) && it.source == source && it.size == source.Length && it.index == 0
    {
      it := new ArrayIterator(source);
    }
  }

  // ----- NBTByteArray -----

  class NbtByteArray {
    /** The caller's `byte[]`, shared, never copied on construction. */
    const bytes: array<i8>

    /** The array as a tree value. */
    function Value(): Nbt
      reads bytes
    {
      ByteArray(bytes[..])
    }

    /** `new NBTByteArray(byte...)`: stores the caller's array itself. */
    constructor (bytes: array<i8>)
      ensures this.bytes == bytes
    {
      this.bytes := bytes;
    }

    /** `new NBTByteArray(int...)`: same length, each int narrowed to its low 8 bits. */
    constructor FromInts(ints: seq<i32>)
      ensures fresh(bytes) && bytes.Length == |ints|
      ensures forall i :: 0 <= i < |ints| ==> bytes[i] == ToI8(ints[i])
    {
      bytes := new i8[|ints|];
      new;
      var i := 0;
      while i < bytes.Length
        invariant 0 <= i <= bytes.Length == |ints|
        invariant forall j :: 0 <= j < i ==> bytes[j] == ToI8(ints[j])
        modifies bytes
      {
        bytes[i] := ToI8(ints[i]);
        i := i + 1;
      }
    }

    /** `tag()` */
    function ArrayTag(): (t: Tag)
      reads bytes
      ensures t == TagOf(Value())
    {
      BYTE_ARRAY
    }

    /** `getElementType()`: the tag of a single byte. */
    function ElementType(): (t: Tag)
      ensures forall b: i8 :: TagOf(Byte(b)) == t
    {
      BYTE
    }

    /** `size()` */
    function Size(): (n: nat)
      reads bytes
      ensures n == |Value().bytes|
    {
      bytes.Length
    }

    /** `get(index)` */
    function Get(index: int): (r: Result<i8, Thrown>)
      reads bytes
      ensures r.Success? <==> 0 <= index < |Value().bytes|
      ensures r.Success? ==> r.value == Value().bytes[index]
      ensures r.Failure? ==> r.error == IndexOutOfBounds
    {
      if 0 <= index < bytes.Length then Success(bytes[index]) else Failure(IndexOutOfBounds)
    }

    /** `set(index, element)`: the null check comes first, then the index check; one slot changes. */
    method Set(index: int, element: Option<i8>) returns (r: Result<(), Thrown>)
      modifies bytes
      ensures element.None? ==> r == Failure(NullPointer) && bytes[..] == old(bytes[..])
      ensures element.Some? && !(0 <= index < bytes.Length) ==>
        r == Failure(IndexOutOfBounds) && bytes[..] == old(bytes[..])
      ensures element.Some? && 0 <= index < bytes.Length ==>
        r == Success(()) && bytes[..] == old(bytes[..])[index := element.value]
    {
      if element.None? {
        return Failure(NullPointer);
      }
      if !(0 <= index < bytes.Length) {
        return Failure(IndexOutOfBounds);
      }
      bytes[index] := element.value;
      return Success(());
    }

    /** `equals(obj)` against another byte array: element-wise equal contents. */
    predicate EqualsArray(other: NbtByteArray)
      reads bytes, other.bytes
      ensures EqualsArray(other) <==> Equals(Value(), other.Value())
    {
      bytes[..] == other.bytes[..]
    }

    /** `revert()`: a copy, so later writes to either side are not shared. */
    method Revert() returns (r: array<i8>)
      ensures fresh(r) && Bytes(r[..]) == Conversion.Revert(Value())
    {
      r := CopyOf(bytes);
    }

    /** `clone()`: equal contents in a buffer of its own. */
    method Clone() returns (c: NbtByteArray)
      ensures fresh(c) && fresh(c.bytes) && c.EqualsArray(this) && c.Value() == Value()
    {
      var copy := CopyOf(bytes);
      c := new NbtByteArray(copy);
    }

    /** `unmodifiableView()` */
    method UnmodifiableView() returns (v: ArrayView<i8>)
      ensures fresh(v) && v.source == bytes
      ensures v.ElementType() == ArrayTag() && v.ElementType() != ElementType()
    {
      v := new ArrayView(bytes, BYTE_ARRAY);
    }

    /** `iterator()` */
    method Iterator() returns (it: ArrayIterator<i8>)
      ensures fresh(it) && it.source == bytes && it.size == bytes.Length && it.index == 0
    {
      it := new ArrayIterator(bytes);
    }
  }

  /** `new NBTByteArray(int size)`: a zero-filled buffer; a negative size throws. */
  method ByteArrayOfSize(size: int) returns (r: Result<NbtByteArray, Thrown>)
    ensures r.Success? <==> size >= 0
    ensures r.Success? ==> fresh(r.value) && fresh(r.value.bytes) && r.value.Value() == ByteArray(seq(size, _ => 0))
    ensures r.Failure? ==> r.error == NegativeArraySize
  {
    var a := NewArray<i8>(size, 0);
    if a.Failure? {
      return Failure(a.error);
    }
    var wrapped := new NbtByteArray(a.value);
    r := Success(wrapped);
  }

  /** `new NBTByteArray(Byte[])`: unboxed element by element; a null element throws. */
  method ByteArrayOfBoxed(xs: seq<Option<i8>>) returns (r: Result<NbtByteArray, Thrown>)
    ensures r.Success? <==> AllPresent(xs)
    ensures r.Success? ==> fresh(r.value) && r.value.Value() == ByteArray(Unboxed(xs))
    ensures r.Failure? ==> r.error == NullPointer
  {
    var a := Unbox(xs);
    if a.Failure? {
      return Failure(a.error);
    }
    var wrapped := new NbtByteArray(a.value);
    r := Success(wrapped);
  }

  // ----- NBTIntArray -----

  class NbtIntArray {
    /** The caller's `int[]`, shared, never copied on construction. */
    const ints: array<i32>

    /** The array as a tree value. */
    function Value(): Nbt
      reads ints
    {
      IntArray(ints[..])
    }

    /** `new NBTIntArray(int...)`: stores the caller's array itself. */
    constructor (ints: array<i32>)
      ensures this.ints == ints
    {
      this.ints := ints;
    }

    /** `tag()` */
    function ArrayTag(): (t: Tag)
      reads ints
      ensures t == TagOf(Value())
    {
      INT_ARRAY
    }

    /** `getElementType()`: the tag of a single int. */
    function ElementType(): (t: Tag)
      ensures forall x: i32 :: TagOf(Int(x)) == t
    {
      INT
    }

    /** `size()` */
    function Size(): (n: nat)
      reads ints
      ensures n == |Value().ints|
    {
      ints.Length
    }

    /** `get(index)` */
    function Get(index: int): (r: Result<i32, Thrown>)
      reads ints
      ensures r.Success? <==> 0 <= index < |Value().ints|
      ensures r.Success? ==> r.value == Value().ints[index]
      ensures r.Failure? ==> r.error == IndexOutOfBounds
    {
      if 0 <= index < ints.Length then Success(ints[index]) else Failure(IndexOutOfBounds)
    }

    /** `set(index, element)`: the null check comes first, then the index check; one slot changes. */
    method Set(index: int, element: Option<i32>) returns (r: Result<(), Thrown>)
      modifies ints
      ensures element.None? ==> r == Failure(NullPointer) && ints[..] == old(ints[..])
      ensures element.Some? && !(0 <= index < ints.Length) ==>
        r == Failure(IndexOutOfBounds) && ints[..] == old(ints[..])
      ensures element.Some? && 0 <= index < ints.Length ==>
        r == Success(()) && ints[..] == old(ints[..])[index := element.value]
    {
      if element.None? {
        return Failure(NullPointer);
      }
      if !(0 <= index < ints.Length) {
        return Failure(IndexOutOfBounds);
      }
      ints[index] := element.value;
      return Success(());
    }

    /** `equals(obj)` against another int array: element-wise equal contents. */
    predicate EqualsArray(other: NbtIntArray)
      reads ints, other.ints
      ensures EqualsArray(other) <==> Equals(Value(), other.Value())
    {
      ints[..] == other.ints[..]
    }

    /** `revert()`: a copy, so later writes to either side are not shared. */
    method Revert() returns (r: array<i32>)
      ensures fresh(r) && Ints(r[..]) == Conversion.Revert(Value())
    {
      r := CopyOf(ints);
    }

    /** `clone()`: equal contents in a buffer of its own. */
    method Clone() returns (c: NbtIntArray)
      ensures fresh(c) && fresh(c.ints) && c.EqualsArray(this) && c.Value() == Value()
    {
      var copy := CopyOf(ints);
      c := new NbtIntArray(copy);
    }

    /** `unmodifiableView()` */
    method UnmodifiableView() returns (v: ArrayView<i32>)
      ensures fresh(v) && v.source == ints
      ensures v.ElementType() == ArrayTag() && v.ElementType() != ElementType()
    {
      v := new ArrayView(ints, INT_ARRAY);
    }

    /** `iterator()` */
    method Iterator() returns (it: ArrayIterator<i32>)
      ensures fresh(it) && it.source == ints && it.size == ints.Length && it.index == 0
    {
      it := new ArrayIterator(ints);
    }
  }

  /** `new NBTIntArray(int size)`: a zero-filled buffer; a negative size throws. */
  method IntArrayOfSize(size: int) returns (r: Result<NbtIntArray, Thrown>)
    ensures r.Success? <==> size >= 0
    ensures r.Success? ==> fresh(r.value) && fresh(r.value.ints) && r.value.Value() == IntArray(seq(size, _ => 0))
    ensures r.Failure? ==> r.error == NegativeArraySize
  {
    var a := NewArray<i32>(size, 0);
    if a.Failure? {
      return Failure(a.error);
    }
    var wrapped := new NbtIntArray(a.value);
    r := Success(wrapped);
  }

  /** `new NBTIntArray(Integer[])`: unboxed element by element; a null element throws. */
  method IntArrayOfBoxed(xs: seq<Option<i32>>) returns (r: Result<NbtIntArray, Thrown>)
    ensures r.Success? <==> AllPresent(xs)
    ensures r.Success? ==> fresh(r.value) && r.value.Value() == IntArray(Unboxed(xs))
    ensures r.Failure? ==> r.error == NullPointer
  {
    var a := Unbox(xs);
    if a.Failure? {
      return Failure(a.error);
    }
    var wrapped := new NbtIntArray(a.value);
    r := Success(wrapped);
  }

  // ----- NBTLongArray -----

  class NbtLongArray {
    /** The caller's `long[]`, shared, never copied on construction. */
    const longs: array<i64>

    /** The array as a tree value. */
    function Value(): Nbt
      reads longs
    {
      LongArray(longs[..])
    }

    /** `new NBTLongArray(long...)`: stores the caller's array itself. */
    constructor (longs: array<i64>)
      ensures this.longs == longs
    {
      this.longs := longs;
    }

    /** `tag()` */
    function ArrayTag(): (t: Tag)
      reads longs
      ensures t == TagOf(Value())
    {
      LONG_ARRAY
    }

    /** `getElementType()`: the tag of a single long. */
    function ElementType(): (t: Tag)
      ensures forall x: i64 :: TagOf(Long(x)) == t
    {
      LONG
    }

    /** `size()` */
    function Size(): (n: nat)
      reads longs
      ensures n == |Value().longs|
    {
      longs.Length
    }

    /** `get(index)` */
    function Get(index: int): (r: Result<i64, Thrown>)
      reads longs
      ensures r.Success? <==> 0 <= index < |Value().longs|
      ensures r.Success? ==> r.value == Value().longs[index]
      ensures r.Failure? ==> r.error == IndexOutOfBounds
    {
      if 0 <= index < longs.Length then Success(longs[index]) else Failure(IndexOutOfBounds)
    }

    /** `set(index, element)`: the null check comes first, then the index check; one slot changes. */
    method Set(index: int, element: Option<i64>) returns (r: Result<(), Thrown>)
      modifies longs
      ensures element.None? ==> r == Failure(NullPointer) && longs[..] == old(longs[..])
      ensures element.Some? && !(0 <= index < longs.Length) ==>
        r == Failure(IndexOutOfBounds) && longs[..] == old(longs[..])
      ensures element.Some? && 0 <= index < longs.Length ==>
        r == Success(()) && longs[..] == old(longs[..])[index := element.value]
    {
      if element.None? {
        return Failure(NullPointer);
      }
      if !(0 <= index < longs.Length) {
        return Failure(IndexOutOfBounds);
      }
      longs[index] := element.value;
      return Success(());
    }

    /** `equals(obj)` against another long array: element-wise equal contents. */
    predicate EqualsArray(other: NbtLongArray)
      reads longs, other.longs
      ensures EqualsArray(other) <==> Equals(Value(), other.Value())
    {
      longs[..] == other.longs[..]
    }

    /** `revert()`: a copy, so later writes to either side are not shared. */
    method Revert() returns (r: array<i64>)
      ensures fresh(r) && Longs(r[..]) == Conversion.Revert(Value())
    {
      r := CopyOf(longs);
    }

    /** `clone()`: equal contents in a buffer of its own. */
    method Clone() returns (c: NbtLongArray)
      ensures fresh(c) && fresh(c.longs) && c.EqualsArray(this) && c.Value() == Value()
    {
      var copy := CopyOf(longs);
      c := new NbtLongArray(copy);
    }

    /** `unmodifiableView()` */
    method UnmodifiableView() returns (v: ArrayView<i64>)
      ensures fresh(v) && v.source == longs
      ensures v.ElementType() == ArrayTag() && v.ElementType() != ElementType()
    {
      v := new ArrayView(longs, LONG_ARRAY);
    }

    /** `iterator()` */
    method Iterator() returns (it: ArrayIterator<i64>)
      ensures fresh(it) && it.source == longs && it.size == longs.Length && it.index == 0
    {
      it := new ArrayIterator(longs);
    }
  }

  /**
   * `new NBTLongArray(int size)`: unboxes a fresh `Long[size]` of nulls, so a
   * size of 0 gives an empty array, any positive size throws
   * NullPointerException, and a negative size NegativeArraySizeException.
   */
  method LongArrayOfSize(size: int) returns (r: Result<NbtLongArray, Thrown>)
    ensures size < 0 ==> r == Failure(NegativeArraySize)
    ensures size == 0 ==> r.Success? && fresh(r.value) && r.value.Value() == LongArray([])
    ensures size > 0 ==> r == Failure(NullPointer)
  {
    if size < 0 {
      return Failure(NegativeArraySize);
    }
    var boxed: seq<Option<i64>> := seq(size, _ => None);
    assert size > 0 ==> !boxed[0].Some?;
    var a := Unbox(boxed);
    if a.Failure? {
      return Failure(a.error);
    }
    var wrapped := new NbtLongArray(a.value);
    r := Success(wrapped);
  }

  /**
   * The size constructor as its int and byte siblings behave: a zero-filled
   * buffer of the given size, a negative size throwing
   * NegativeArraySizeException.
   */
  method ZeroedLongArrayOfSize(size: int) returns (r: Result<NbtLongArray, Thrown>)
    ensures r.Success? <==> size >= 0
    ensures r.Success? ==> fresh(r.value) && fresh(r.value.longs) && r.value.Value() == LongArray(seq(size, _ => 0))
    ensures r.Failure? ==> r.error == NegativeArraySize
  {
    var a := NewArray<i64>(size, 0);
    if a.Failure? {
      return Failure(a.error);
    }
    var wrapped := new NbtLongArray(a.value);
    r := Success(wrapped);
  }

  /** `new NBTLongArray(Long[])`: unboxed element by element; a null element throws. */
  method LongArrayOfBoxed(xs: seq<Option<i64>>) returns (r: Result<NbtLongArray, Thrown>)
    ensures r.Success? <==> AllPresent(xs)
    ensures r.Success? ==> fresh(r.value) && r.value.Value() == LongArray(Unboxed(xs))
    ensures r.Failure? ==> r.error == NullPointer
  {
    var a := Unbox(xs);
    if a.Failure? {
      return Failure(a.error);
    }
    var wrapped := new NbtLongArray(a.value);
    r := Success(wrapped);
  }
}
