/**
 * The bridge between NBT values and plain Java objects: `NBT.convert`,
 * `NBT.revert`, `Tag.make` and the default `softEquals`.
 */
module Conversion {
  import opened Wrappers
  import opened JavaInts
  import opened Tags
  import opened Values

  /** The Java objects `convert` accepts and `revert` produces, by class. */
  datatype Native =
    | Null
    | Tree(nbt: Nbt)                        // an object that already is an NBT
    | Bool(boolValue: bool)                 // java.lang.Boolean
    | JByte(byteValue: i8)
    | JShort(shortValue: i16)
    | JInt(intValue: i32)
    | JLong(longValue: i64)
    | JFloat(floatBits: Bits32)
    | JDouble(doubleBits: Bits64)
    | Bytes(bytes: seq<i8>)                 // byte[]
    | Text(text: string)                    // java.lang.String
    | JList(elements: seq<Native>)          // java.util.List
    | JMap(entries: map<string, Native>)    // java.util.Map with String keys
    | Ints(ints: seq<i32>)                  // int[]
    | Longs(longs: seq<i64>)                // long[]
    | Other                                 // an instance of any other class

  /** The class each tag's factory is registered for is the class of `o` (END's class is Void). */
  predicate Accepts(t: Tag, o: Native)
  {
    match t
    case END => false
    case BYTE => o.JByte?
    case SHORT => o.JShort?
    case INT => o.JInt?
    case LONG => o.JLong?
    case FLOAT => o.JFloat?
    case DOUBLE => o.JDouble?
    case BYTE_ARRAY => o.Bytes?
    case STRING => o.Text?
    case LIST => o.JList?
    case COMPOUND => o.JMap?
    case INT_ARRAY => o.Ints?
    case LONG_ARRAY => o.Longs?
  }

  /** The one tag, if any, whose registered class `o` belongs to. */
  function ClassTag(o: Native): (r: Option<Tag>)
    ensures forall t :: Accepts(t, o) <==> r == Some(t)
  {
    match o
    case JByte(_) => Some(BYTE)
    case JShort(_) => Some(SHORT)
    case JInt(_) => Some(INT)
    case JLong(_) => Some(LONG)
    case JFloat(_) => Some(FLOAT)
    case JDouble(_) => Some(DOUBLE)
    case Bytes(_) => Some(BYTE_ARRAY)
    case Text(_) => Some(STRING)
    case JList(_) => Some(LIST)
    case JMap(_) => Some(COMPOUND)
    case Ints(_) => Some(INT_ARRAY)
    case Longs(_) => Some(LONG_ARRAY)
    case _ => None
  }

  /** `NBT.convert(o)`: an NBT is returned unchanged, null becomes End, a Boolean a Byte, anything else goes through the first matching `Tag.make`. */
  function Convert(o: Native): (r: Result<Option<Nbt>, Thrown>)
    ensures o.Tree? ==> r == Success(Some(o.nbt))
    ensures o.Null? ==> r == Success(Some(End))
    ensures o.Bool? ==>
      r.Success? && r.value.Some? && r.value.value.Byte? && (r.value.value.byteValue == 1 <==> o.boolValue)
    decreases o, 3
  {
    match o
    case Tree(v) => Success(Some(v))
    case Null => Success(Some(End))
    case Bool(z) => Success(Some(ByteOfBool(z)))
    case _ => ConvertFrom(o, 0)
  }

  /** The search loop of `convert` over `Tag.values()` from index `i`: the first non-null `make` wins. */
  function ConvertFrom(o: Native, i: nat): Result<Option<Nbt>, Thrown>
    requires i <= |AllTags|
    decreases o, 2, |AllTags| - i
  {
    if i == |AllTags| then Success(None)
    else
      var made :- Make(AllTags[i], o);
      if made.Some? then Success(made) else ConvertFrom(o, i + 1)
  }

  /** `Tag.make(o)`: null when `o` is not of the tag's class, else the tag's constructor applied to `o` (a boxed number of the tag's own width keeps its value). */
  function Make(t: Tag, o: Native): (r: Result<Option<Nbt>, Thrown>)
    ensures !Accepts(t, o) ==> r == Success(None)
    ensures r.Success? && Accepts(t, o) ==> r.value.Some? && TagOf(r.value.value) == t
    decreases o, 1
  {
    if !Accepts(t, o) then Success(None)
    else
      assert ClassTag(o) == Some(t);
      match o
      case JByte(b) => Success(Some(Byte(b)))
      case JShort(x) => Success(Some(Short(x)))
      case JInt(x) => Success(Some(Int(x)))
      case JLong(x) => Success(Some(Long(x)))
      case JFloat(f) => Success(Some(Float(f)))
      case JDouble(d) => Success(Some(Double(d)))
      case Bytes(bs) => Success(Some(ByteArray(bs)))
      case Text(x) => Success(Some(StrOf(Some(x))))
      case JList(xs) =>
        var l :- ListOf(o, |xs|);
        Success(Some(l))
      case JMap(_) =>
        var c :- CompoundOf(o);
        Success(Some(c))
      case Ints(xs) => Success(Some(IntArray(xs)))
      case Longs(xs) => Success(Some(LongArray(xs)))
  }

  /**
   * `new NBTList(collection)` after its first `n` elements: each is converted and
   * inserted through the list's type check, a null conversion being rejected.
   */
  function ListOf(o: Native, n: nat): (r: Result<Nbt, Thrown>)
    requires o.JList? && n <= |o.elements|
    ensures r.Success? ==> r.value.List? && |r.value.items| == n
    decreases o, 0, n
  {
    if n == 0 then Success(List(END, []))
    else
      var prev :- ListOf(o, n - 1);
      var c :- Convert(o.elements[n - 1]);
      if c.None? then Failure(NBTException)
      else
        var t :- Admit(prev.elementType, c.value);
        Success(List(t, prev.items + [c.value]))
  }

  /** Whether setting the entry `v` into a compound would throw NBTException (directly or while converting). */
  predicate Rejects(v: Native)
    decreases v, 4
  {
    v == Tree(End) || (Convert(v).Failure? && Convert(v).error == NBTException)
  }

  /** Whether the entry `v` would be stored as a Java null: the model has no null inside a compound. */
  predicate StoresNull(v: Native)
    decreases v, 4
  {
    v != Null && (Convert(v).Failure? || Convert(v).value.None?)
  }

  /**
   * `new NBTCompound(map)`: every entry goes through `set`, so an End value throws,
   * a null value is dropped and any other value is converted.
   */
  function CompoundOf(o: Native): (r: Result<Nbt, Thrown>)
    requires o.JMap?
    ensures r.Success? ==> r.value.Compound? && r.value.entries.Keys == set k | k in o.entries && o.entries[k] != Null
    decreases o, 0
  {
    var m := o.entries;
    if exists k | k in m :: Rejects(m[k]) then Failure(NBTException)
    else if exists k | k in m :: StoresNull(m[k]) then Failure(NullEntry)
    else Success(Compound(map k | k in m && m[k] != Null :: Convert(m[k]).value.value))
  }

  /** `NBT.revert(v)`: the plain Java object a value stands for; End reverts to null. */
  function Revert(v: Nbt): (r: Native)
    ensures r.Null? <==> v.End?
    ensures !r.Tree? && !r.Bool? && !r.Other?
    ensures !v.End? ==> ClassTag(r) == Some(TagOf(v))
    decreases v
  {
    match v
    case End => Null
    case Byte(b) => JByte(b)
    case Short(s) => JShort(s)
    case Int(x) => JInt(x)
    case Long(x) => JLong(x)
    case Float(f) => JFloat(f)
    case Double(d) => JDouble(d)
    case ByteArray(bs) => Bytes(bs)
    case Str(s) => Text(s)
    case List(_, xs) => JList(seq(|xs|, i requires 0 <= i < |xs| => Revert(xs[i])))
    case Compound(m) => JMap(map k | k in m :: Revert(m[k]))
    case IntArray(xs) => Ints(xs)
    case LongArray(xs) => Longs(xs)
  }

  // ----- softEquals -----

  /**
   * `Objects.equals(r, o)` where `r` was just produced by `revert()`: arrays in `r`
   * are fresh copies, and Java arrays compare by identity, so they never match.
   */
  predicate FreshEquals(r: Native, o: Native)
    decreases r
  {
    match r
    case Bytes(_) => false
    case Ints(_) => false
    case Longs(_) => false
    case JList(xs) =>
      o.JList? && |xs| == |o.elements| && forall i :: 0 <= i < |xs| ==> FreshEquals(xs[i], o.elements[i])
    case JMap(m) =>
      o.JMap? && m.Keys == o.entries.Keys && forall k :: k in m ==> FreshEquals(m[k], o.entries[k])
    case _ => r == o
  }

  /** `softEquals(o)`: equal as NBT, or `o` is not an NBT and equals this value's revert. */
  function SoftEquals(v: Nbt, o: Native): (r: bool)
    ensures o.Null? ==> (r <==> v.End?)
    ensures o.Bool? || o.Other? || o.Bytes? || o.Ints? || o.Longs? ==> !r
    ensures o.Tree? && TagOf(v) != TagOf(o.nbt) ==> !r
  {
    if o.Tree? then Equals(v, o.nbt) else FreshEquals(Revert(v), o)
  }

  // ----- properties -----

  /** Anything that is not an NBT, null or a Boolean converts through the factory of its class, or to null. */
  lemma ConvertByClass(o: Native)
    requires !o.Tree? && !o.Null? && !o.Bool?
    ensures ClassTag(o).None? ==> Convert(o) == Success(None)
    ensures ClassTag(o).Some? ==> Convert(o) == Make(ClassTag(o).value, o)
    ensures Convert(o).Success? && Convert(o).value.Some? ==>
      ClassTag(o).Some? && TagOf(Convert(o).value.value) == ClassTag(o).value
  {
    ConvertFromSkips(o, 0);
  }

  lemma {:induction false} ConvertFromSkips(o: Native, i: nat)
    requires i <= |AllTags|
    requires ClassTag(o).Some? ==> i <= Id(ClassTag(o).value)
    ensures ClassTag(o).None? ==> ConvertFrom(o, i) == Success(None)
    ensures ClassTag(o).Some? ==> ConvertFrom(o, i) == Make(ClassTag(o).value, o)
    decreases |AllTags| - i
  {
    if i < |AllTags| {
      if Accepts(AllTags[i], o) {
        assert ClassTag(o) == Some(AllTags[i]);
      } else {
        ConvertFromSkips(o, i + 1);
      }
    }
  }

  /** A Java object tree built only from values `convert` accepts and `revert` produces. */
  predicate Plain(o: Native)
    decreases o
  {
    match o
    case Tree(_) => false
    case Bool(_) => false
    case Other => false
    case JList(xs) => forall i :: 0 <= i < |xs| ==> Plain(xs[i])
    case JMap(m) => forall k :: k in m ==> m[k] != Null && Plain(m[k])
    case _ => true
  }

  /** `revert` undoes `convert` on plain objects. */
  lemma {:induction false} RevertConvert(o: Native)
    requires Plain(o)
    requires Convert(o).Success? && Convert(o).value.Some?
    ensures Revert(Convert(o).value.value) == o
    decreases o, 1
  {
    if !o.Null? {
      ConvertByClass(o);
    }
    match o
    case JList(xs) => RevertConvertList(o, |xs|);
    case JMap(m) =>
      var c := Convert(o).value.value;
      assert c == CompoundOf(o).value;
      forall k | k in m ensures Revert(c.entries[k]) == m[k] {
        assert !StoresNull(m[k]);
        RevertConvert(m[k]);
      }
      assert Revert(c) == o;
    case _ =>
  }

  lemma {:induction false} RevertConvertList(o: Native, n: nat)
    requires o.JList? && n <= |o.elements| && Plain(o)
    requires ListOf(o, n).Success?
    ensures Revert(ListOf(o, n).value) == JList(o.elements[..n])
    decreases o, 0, n
  {
    if n > 0 {
      ListOfShape(o, n);
      RevertConvertList(o, n - 1);
      RevertConvertItem(o, n - 1);
      RevertSnoc(ListOf(o, n - 1).value.elementType, ListOf(o, n).value.elementType, ListOf(o, n - 1).value.items, Convert(o.elements[n - 1]).value.value);
      PrefixSnoc(o.elements, n);
    }
  }

  /** Each element of a plain list reverts back from its conversion. */
  lemma RevertConvertItem(o: Native, i: nat)
    requires o.JList? && i < |o.elements| && Plain(o)
    requires Convert(o.elements[i]).Success? && Convert(o.elements[i]).value.Some?
    ensures Revert(Convert(o.elements[i]).value.value) == o.elements[i]
    decreases o, 0, 0
  {
    RevertConvert(o.elements[i]);
  }

  /** A successful `new NBTList(collection)` of `n` elements extends the one of `n - 1` by the last conversion. */
  lemma ListOfShape(o: Native, n: nat)
    requires o.JList? && 0 < n <= |o.elements|
    requires ListOf(o, n).Success?
    ensures ListOf(o, n - 1).Success?
    ensures Convert(o.elements[n - 1]).Success? && Convert(o.elements[n - 1]).value.Some?
    ensures ListOf(o, n).value.items == ListOf(o, n - 1).value.items + [Convert(o.elements[n - 1]).value.value]
  {
  }

  lemma RevertSnoc(t: Tag, u: Tag, items: seq<Nbt>, e: Nbt)
    ensures Revert(List(u, items + [e])).elements == Revert(List(t, items)).elements + [Revert(e)]
  {
  }

  /** `convert` undoes `revert` on well-formed trees, up to the element type of empty lists. */
  lemma {:induction false} ConvertRevert(v: Nbt)
    requires WellFormed(v)
    ensures Convert(Revert(v)) == Success(Some(Canon(v)))
    decreases v, 1
  {
    match v
    case End =>
    case List(t, xs) =>
      ConvertByClass(Revert(v));
      ConvertRevertList(v, |xs|);
      assert Canon(v).items[..|xs|] == Canon(v).items;
    case Compound(m) =>
      ConvertByClass(Revert(v));
      ConvertRevertCompound(v);
    case _ =>
      ConvertByClass(Revert(v));
  }

  lemma {:induction false} ConvertRevertCompound(v: Nbt)
    requires v.Compound? && WellFormed(v)
    ensures CompoundOf(Revert(v)) == Success(Canon(v))
    decreases v, 0
  {
    var r, c := Revert(v), Canon(v);
    var m, o := v.entries, r.entries;
    forall k | k in m ensures Convert(o[k]) == Success(Some(Canon(m[k]))) && o[k] != Null && !Rejects(o[k]) && !StoresNull(o[k]) {
      ConvertRevert(m[k]);
      assert TagOf(m[k]) != END;
    }
    CompoundOfConverted(r, c);
  }

  /** A map whose every entry converts, to the value `c` holds under the same key, makes the compound `c`. */
  lemma {:induction false} CompoundOfConverted(r: Native, c: Nbt)
    requires r.JMap? && c.Compound? && r.entries.Keys == c.entries.Keys
    requires forall k | k in r.entries ::
      r.entries[k] != Null && !Rejects(r.entries[k]) && !StoresNull(r.entries[k]) && Convert(r.entries[k]) == Success(Some(c.entries[k]))
    ensures CompoundOf(r) == Success(c)
  {
    var o := r.entries;
    assert (map k | k in o && o[k] != Null :: Convert(o[k]).value.value) == c.entries;
  }

  lemma {:induction false} ConvertRevertList(v: Nbt, n: nat)
    requires v.List? && WellFormed(v) && n <= |v.items|
    ensures ListOf(Revert(v), n) == Success(List(if n == 0 then END else v.elementType, Canon(v).items[..n]))
    decreases v, 0, n
  {
    if n > 0 {
      ConvertRevertList(v, n - 1);
      ConvertRevertItem(v, n - 1);
      PrefixSnoc(Canon(v).items, n);
      ListOfStep(Revert(v), n, if n - 1 == 0 then END else v.elementType, Canon(v).items[..n - 1], Canon(v).items[n - 1]);
    }
  }

  /** Each element of a reverted list converts back to its canonical form, of the list's element type. */
  lemma {:induction false} ConvertRevertItem(v: Nbt, i: nat)
    requires v.List? && WellFormed(v) && i < |v.items|
    ensures |Revert(v).elements| == |Canon(v).items| == |v.items|
    ensures Convert(Revert(v).elements[i]) == Success(Some(Canon(v).items[i]))
    ensures TagOf(Canon(v).items[i]) == v.elementType
    decreases v, 0, 0
  {
    var x := v.items[i];
    assert Revert(v).elements[i] == Revert(x);
    assert Canon(v).items[i] == Canon(x);
    ConvertRevert(x);
    CanonPreserves(x);
  }

  lemma PrefixSnoc<T>(s: seq<T>, n: nat)
    requires 0 < n <= |s|
    ensures s[..n - 1] + [s[n - 1]] == s[..n]
  {
  }

  /** One more element of `new NBTList(collection)`: converted, then admitted by the type check. */
  lemma ListOfStep(o: Native, n: nat, prevType: Tag, prevItems: seq<Nbt>, e: Nbt)
    requires o.JList? && 0 < n <= |o.elements|
    requires ListOf(o, n - 1) == Success(List(prevType, prevItems))
    requires Convert(o.elements[n - 1]) == Success(Some(e))
    requires Admit(prevType, e).Success?
    ensures ListOf(o, n) == Success(List(Admit(prevType, e).value, prevItems + [e]))
  {
  }

  /** `softEquals` on another NBT is `equals`; it never matches an NBT of another tag. */
  lemma SoftEqualsOnTrees(v: Nbt, w: Nbt)
    ensures SoftEquals(v, Tree(w)) <==> Equals(v, w)
    ensures TagOf(v) != TagOf(w) ==> !SoftEquals(v, Tree(w))
  {
  }

  /**
   * Against plain objects, a scalar or string matches exactly its own revert,
   * End matches null, and an array never matches because its revert is a fresh copy.
   */
  lemma SoftEqualsOnPlain(v: Nbt, o: Native)
    requires !o.Tree?
    ensures (v.Byte? || v.Short? || v.Int? || v.Long? || v.Float? || v.Double? || v.Str?) ==>
      (SoftEquals(v, o) <==> o == Revert(v))
    ensures v.End? ==> (SoftEquals(v, o) <==> o.Null?)
    ensures (v.ByteArray? || v.IntArray? || v.LongArray?) ==> !SoftEquals(v, o)
  {
  }
}
