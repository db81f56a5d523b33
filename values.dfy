/**
 * The closed family of NBT values (the implementations of the `NBT` interface)
 * as one datatype, with the per-class `tag()`, `equals`, `clone` and the
 * number/boolean/string constructors of the immutable classes.
 */
module Values {
  import opened Wrappers
  import opened JavaInts
  import opened Tags

  /** Raw IEEE-754 bit patterns: floating-point arithmetic and rendering are outside the model. */
  type Bits32 = x: int | 0 <= x < 0x1_0000_0000
  type Bits64 = x: int | 0 <= x < 0x1_0000_0000_0000_0000

  /** Largest length of a Java array, list or string. */
  const MaxJavaLength := 0x7FFF_FFFF

  datatype Nbt =
    | End
    | Byte(byteValue: i8)
    | Short(shortValue: i16)
    | Int(intValue: i32)
    | Long(longValue: i64)
    | Float(floatBits: Bits32)
    | Double(doubleBits: Bits64)
    | ByteArray(bytes: seq<i8>)
    | Str(text: string)
    | List(elementType: Tag, items: seq<Nbt>)
    | Compound(entries: map<string, Nbt>)
    | IntArray(ints: seq<i32>)
    | LongArray(longs: seq<i64>)

  /** The exceptions the core throws, by class. */
  datatype Thrown =
    | NBTException
    | NullPointer
    | IndexOutOfBounds
    | IllegalArgument
    | UnsupportedOperation
    | NegativeArraySize
    | ClassCast
    | NullEntry  // Java would store a null compound entry, which the model does not represent

  /** `tag()` of each implementation. */
  function TagOf(v: Nbt): Tag
  {
    match v
    case End => END
    case Byte(_) => BYTE
    case Short(_) => SHORT
    case Int(_) => INT
    case Long(_) => LONG
    case Float(_) => FLOAT
    case Double(_) => DOUBLE
    case ByteArray(_) => BYTE_ARRAY
    case Str(_) => STRING
    case List(_, _) => LIST
    case Compound(_) => COMPOUND
    case IntArray(_) => INT_ARRAY
    case LongArray(_) => LONG_ARRAY
  }

  // ----- constructors of the immutable classes -----

  /** `new NBTByte(Number)`: keeps the low 8 bits of the number. */
  function ByteOfNumber(n: int): (r: Nbt)
    ensures r.Byte? && TagOf(r) == BYTE
    ensures (n - r.byteValue) % 0x100 == 0
  {
    SignedCongruent(n, 1);
    Byte(ToI8(n))
  }

  /** `new NBTByte(boolean)`: 1 for true, 0 for false. */
  function ByteOfBool(z: bool): (r: Nbt)
    ensures r.Byte? && TagOf(r) == BYTE
    ensures r.byteValue == 1 <==> z
    ensures r.byteValue == 0 <==> !z
  {
    Byte(if z then 1 else 0)
  }

  /** `new NBTShort(Number)`: keeps the low 16 bits. */
  function ShortOfNumber(n: int): (r: Nbt)
    ensures r.Short? && TagOf(r) == SHORT
    ensures (n - r.shortValue) % 0x1_0000 == 0
  {
    SignedCongruent(n, 2);
    Short(ToI16(n))
  }

  /** `new NBTInt(Number)`: keeps the low 32 bits. */
  function IntOfNumber(n: int): (r: Nbt)
    ensures r.Int? && TagOf(r) == INT
    ensures (n - r.intValue) % 0x1_0000_0000 == 0
  {
    SignedCongruent(n, 4);
    Int(ToI32(n))
  }

  /** `new NBTLong(Number)`: keeps the low 64 bits. */
  function LongOfNumber(n: int): (r: Nbt)
    ensures r.Long? && TagOf(r) == LONG
    ensures (n - r.longValue) % 0x1_0000_0000_0000_0000 == 0
  {
    SignedCongruent(n, 8);
    Long(ToI64(n))
  }

  /** `new NBTString(String)`: a null argument is stored as the text "null". */
  function StrOf(s: Option<string>): (r: Nbt)
    ensures r.Str? && TagOf(r) == STRING
    ensures s.Some? ==> r.text == s.value
    ensures s.None? ==> r.text == "null"
  {
    Str(if s.Some? then s.value else "null")
  }

  // ----- equals -----

  /**
   * `equals` of every implementation: same class and same content. Lists compare
   * only their element sequences and compounds their key/value maps, so neither
   * a list's element type nor insertion order plays a part.
   */
  function Equals(a: Nbt, b: Nbt): (r: bool)
    ensures r ==> TagOf(a) == TagOf(b)
    ensures a == b ==> r
    decreases a
  {
    match a
    case List(_, xs) =>
      b.List? && |xs| == |b.items| && forall i :: 0 <= i < |xs| ==> Equals(xs[i], b.items[i])
    case Compound(m) =>
      b.Compound? && m.Keys == b.entries.Keys && forall k :: k in m ==> Equals(m[k], b.entries[k])
    case _ => a == b
  }

  /** The value with every list's element type forgotten: what `equals` looks at. */
  function Erase(v: Nbt): Nbt
    decreases v
  {
    match v
    case List(_, xs) => List(END, seq(|xs|, i requires 0 <= i < |xs| => Erase(xs[i])))
    case Compound(m) => Compound(map k | k in m :: Erase(m[k]))
    case _ => v
  }

  /** `equals` is structural equality up to list element types, in both directions. */
  lemma {:induction false} EqualsIffErased(a: Nbt, b: Nbt)
    ensures Equals(a, b) <==> Erase(a) == Erase(b)
    decreases a, 1
  {
    match a
    case List(_, xs) =>
      if b.List? {
        EqualsIffErasedLists(a, b);
      }
    case Compound(m) =>
      if b.Compound? {
        EqualsIffErasedCompounds(a, b);
      }
    case _ =>
  }

  lemma {:induction false} EqualsIffErasedLists(a: Nbt, b: Nbt)
    requires a.List? && b.List?
    ensures Equals(a, b) <==> Erase(a) == Erase(b)
    decreases a, 0
  {
    var xs, ys := a.items, b.items;
    if |xs| == |ys| {
      forall i | 0 <= i < |xs| ensures Equals(xs[i], ys[i]) <==> Erase(xs[i]) == Erase(ys[i]) {
        EqualsIffErased(xs[i], ys[i]);
      }
      ErasedLists(a, b);
    } else {
      assert |Erase(a).items| != |Erase(b).items|;
    }
  }

  /** Two erased lists of the same length are equal exactly when their elements are, one by one. */
  lemma ErasedLists(a: Nbt, b: Nbt)
    requires a.List? && b.List? && |a.items| == |b.items|
    ensures Erase(a) == Erase(b) <==> forall i :: 0 <= i < |a.items| ==> Erase(a.items[i]) == Erase(b.items[i])
  {
    if Erase(a) == Erase(b) {
      forall i | 0 <= i < |a.items| ensures Erase(a.items[i]) == Erase(b.items[i]) {
        assert Erase(a).items[i] == Erase(b).items[i];
      }
    }
  }

  lemma {:induction false} EqualsIffErasedCompounds(a: Nbt, b: Nbt)
    requires a.Compound? && b.Compound?
    ensures Equals(a, b) <==> Erase(a) == Erase(b)
    decreases a, 0
  {
    var m, n := a.entries, b.entries;
    if m.Keys == n.Keys {
      forall k | k in m ensures Equals(m[k], n[k]) <==> Erase(m[k]) == Erase(n[k]) {
        EqualsIffErased(m[k], n[k]);
      }
      ErasedCompounds(a, b);
    } else {
      assert Erase(a).entries.Keys == m.Keys;
      assert Erase(b).entries.Keys == n.Keys;
    }
  }

  /** Two erased compounds with the same keys are equal exactly when their values are, key by key. */
  lemma ErasedCompounds(a: Nbt, b: Nbt)
    requires a.Compound? && b.Compound? && a.entries.Keys == b.entries.Keys
    ensures Erase(a) == Erase(b) <==> forall k :: k in a.entries ==> Erase(a.entries[k]) == Erase(b.entries[k])
  {
    if Erase(a) == Erase(b) {
      forall k | k in a.entries ensures Erase(a.entries[k]) == Erase(b.entries[k]) {
        assert Erase(a).entries[k] == Erase(b).entries[k];
      }
    }
  }

  /** `equals` is an equivalence relation. */
  lemma EqualsIsEquivalence(a: Nbt, b: Nbt, c: Nbt)
    ensures Equals(a, a)
    ensures Equals(a, b) ==> Equals(b, a)
    ensures Equals(a, b) && Equals(b, c) ==> Equals(a, c)
  {
    EqualsIffErased(a, a);
    EqualsIffErased(a, b);
    EqualsIffErased(b, a);
    EqualsIffErased(b, c);
    EqualsIffErased(a, c);
  }

  /** Values of different tags are never equal; scalars are equal iff they hold the same value. */
  lemma EqualsScalars(a: Nbt, b: Nbt)
    ensures Equals(a, b) ==> TagOf(a) == TagOf(b)
    ensures !a.List? && !a.Compound? ==> (Equals(a, b) <==> a == b)
  {
  }

  // ----- list homogeneity: NBTList.check -----

  /**
   * One step of `NBTList.check` on a non-null element: an END-typed list takes the
   * element's tag, any other list rejects a different tag.
   */
  function Admit(current: Tag, e: Nbt): (r: Result<Tag, Thrown>)
    ensures r.Failure? <==> current != END && TagOf(e) != current
    ensures r.Success? ==> r.value == TagOf(e)
    ensures r.Failure? ==> r.error == NBTException
  {
    if current == END then Success(TagOf(e))
    else if TagOf(e) != current then Failure(NBTException)
    else Success(current)
  }

  /** The element type after inserting `items` one by one into a list of type `t`. */
  function AdmitAll(t: Tag, items: seq<Nbt>): (r: Result<Tag, Thrown>)
    ensures r.Failure? ==> r.error == NBTException
  {
    if items == [] then Success(t)
    else
      var t' :- AdmitAll(t, items[..|items| - 1]);
      Admit(t', items[|items| - 1])
  }

  /** Once an element of a non-END tag occurs, every later element has that tag. */
  predicate Homogeneous(items: seq<Nbt>)
  {
    forall i, j :: 0 <= i < j < |items| && TagOf(items[i]) != END ==> TagOf(items[j]) == TagOf(items[i])
  }

  /**
   * Filling a fresh (END-typed) list succeeds exactly for homogeneous sequences,
   * and the resulting type is the last element's tag (END when empty).
   */
  lemma {:induction false} AdmitAllFromEnd(items: seq<Nbt>)
    ensures AdmitAll(END, items).Success? <==> Homogeneous(items)
    ensures AdmitAll(END, items).Success? ==>
      AdmitAll(END, items).value == if items == [] then END else TagOf(items[|items| - 1])
  {
    if items != [] {
      var init, last := items[..|items| - 1], items[|items| - 1];
      AdmitAllFromEnd(init);
      if Homogeneous(items) {
        assert Homogeneous(init) by {
          forall i, j | 0 <= i < j < |init| && TagOf(init[i]) != END
            ensures TagOf(init[j]) == TagOf(init[i])
          {
            assert items[i] == init[i] && items[j] == init[j];
          }
        }
        if init != [] && TagOf(init[|init| - 1]) != END {
          assert items[|init| - 1] == init[|init| - 1];
        }
      } else if Homogeneous(init) && init != [] {
        var i, j :| 0 <= i < j < |items| && TagOf(items[i]) != END && TagOf(items[j]) != TagOf(items[i]);
        if j == |init| {
          assert items[|init| - 1] == init[|init| - 1];
          if i < |init| - 1 {
            assert init[i] == items[i];
          }
        }
      }
    }
  }

  /** Filling a list whose type is already fixed succeeds iff every element has that tag. */
  lemma {:induction false} AdmitAllTyped(t: Tag, items: seq<Nbt>)
    requires t != END
    ensures AdmitAll(t, items).Success? <==> forall i :: 0 <= i < |items| ==> TagOf(items[i]) == t
    ensures AdmitAll(t, items).Success? ==> AdmitAll(t, items).value == t
  {
    if items != [] {
      var init := items[..|items| - 1];
      AdmitAllTyped(t, init);
      assert forall i :: 0 <= i < |init| ==> init[i] == items[i];
    }
  }

  // ----- clone -----

  /**
   * `clone()` of each implementation. Scalars and arrays copy their content, a
   * compound shares its child values, and a list is rebuilt through
   * `new NBTList(list)`, which recomputes the element type and throws when the
   * elements are not homogeneous in insertion order.
   */
  function Clone(v: Nbt): (r: Result<Nbt, Thrown>)
    ensures r.Success? ==> TagOf(r.value) == TagOf(v)
    ensures r.Success? && !v.List? ==> r.value == v
    ensures r.Success? && v.List? ==>
      r.value.items == v.items && r.value.elementType == (if v.items == [] then END else TagOf(v.items[|v.items| - 1]))
    ensures r.Failure? ==> v.List? && r.error == NBTException
  {
    match v
    case List(_, xs) =>
      AdmitAllFromEnd(xs);
      var t :- AdmitAll(END, xs);
      Success(List(t, xs))
    case _ => Success(v)
  }

  /** A clone, when one is made, is `equals` to the original; a list clone fails iff it is not homogeneous. */
  lemma CloneEqualsOriginal(v: Nbt)
    ensures Clone(v).Success? ==> Equals(Clone(v).value, v) && Equals(v, Clone(v).value)
    ensures Clone(v).Failure? <==> v.List? && !Homogeneous(v.items)
  {
    EqualsIsEquivalence(v, v, v);
    if v.List? {
      AdmitAllFromEnd(v.items);
    }
  }

  // ----- the tree invariants of the format -----

  /**
   * The invariants the format expects of a tree: compounds hold no END values,
   * lists hold only elements of their element type (and END-typed lists are empty),
   * and every array, list and string fits a Java length.
   */
  predicate WellFormed(v: Nbt)
    decreases v
  {
    match v
    case ByteArray(bs) => |bs| <= MaxJavaLength
    case IntArray(xs) => |xs| <= MaxJavaLength
    case LongArray(xs) => |xs| <= MaxJavaLength
    case Str(s) => |s| <= MaxJavaLength
    case List(t, xs) =>
      |xs| <= MaxJavaLength && (xs != [] ==> t != END)
      && forall i :: 0 <= i < |xs| ==> TagOf(xs[i]) == t && WellFormed(xs[i])
    case Compound(m) =>
      forall k :: k in m ==> TagOf(m[k]) != END && WellFormed(m[k])
    case _ => true
  }

  /** The tree with each empty list's element type reset to END, as re-inserting the elements computes it. */
  function Canon(v: Nbt): Nbt
    decreases v
  {
    match v
    case List(t, xs) =>
      List(if xs == [] then END else t, seq(|xs|, i requires 0 <= i < |xs| => Canon(xs[i])))
    case Compound(m) => Compound(map k | k in m :: Canon(m[k]))
    case _ => v
  }

  /** Canonicalising keeps the tag, the well-formedness and the `equals` class of a tree. */
  lemma {:induction false} CanonPreserves(v: Nbt)
    requires WellFormed(v)
    ensures TagOf(Canon(v)) == TagOf(v)
    ensures WellFormed(Canon(v))
    ensures Equals(Canon(v), v)
    decreases v
  {
    match v
    case List(t, xs) =>
      forall i | 0 <= i < |xs| ensures TagOf(Canon(xs[i])) == TagOf(xs[i]) && WellFormed(Canon(xs[i])) && Equals(Canon(xs[i]), xs[i]) {
        CanonPreserves(xs[i]);
      }
    case Compound(m) =>
      forall k | k in m ensures TagOf(Canon(m[k])) == TagOf(m[k]) && WellFormed(Canon(m[k])) && Equals(Canon(m[k]), m[k]) {
        CanonPreserves(m[k]);
      }
    case _ =>
  }
}
