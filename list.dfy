/**
 * `NBTList`: an element list plus a mutable element type that the first
 * insertion into an END-typed list fixes and later insertions must match.
 */
module Lists {
  import opened Wrappers
  import opened Tags
  import opened Values
  import opened Conversion

  /** Failure of the type check is sticky: once a prefix is rejected, so is the whole sequence. */
  lemma {:induction false} AdmitAllPrefixFails(t: Tag, items: seq<Nbt>, i: nat)
    requires i <= |items| && AdmitAll(t, items[..i]).Failure?
    ensures AdmitAll(t, items).Failure?
    decreases |items| - i
  {
    if i < |items| {
      assert items[..i + 1][..i] == items[..i];
      AdmitAllPrefixFails(t, items, i + 1);
    } else {
      assert items[..i] == items;
    }
  }

  /** Conversion of a collection likewise keeps the first failure. */
  lemma {:induction false} ListOfPrefixFails(o: Native, i: nat, n: nat)
    requires o.JList? && i <= n <= |o.elements| && ListOf(o, i).Failure?
    ensures ListOf(o, n) == Failure(ListOf(o, i).error)
    decreases n - i
  {
    if i < n {
      ListOfPrefixFails(o, i, n - 1);
    }
  }

  /** Under the list invariant, the element types admitted so far are the list's own type or END. */
  lemma AdmitKeepsInvariant(t: Tag, items: seq<Nbt>, e: Nbt)
    requires forall i :: 0 <= i < |items| ==> TagOf(items[i]) == t || TagOf(items[i]) == END
    requires t == END ==> forall i :: 0 <= i < |items| ==> TagOf(items[i]) == END
    requires Admit(t, e).Success?
    ensures forall i :: 0 <= i < |items| ==> TagOf(items[i]) == Admit(t, e).value || TagOf(items[i]) == END
  {
  }

  class NbtList {
    var list: seq<Nbt>
    var elementType: Tag

    /** Every element has the element type or is End; an END-typed list holds only End. */
    ghost predicate Valid()
      reads this
    {
      (forall i :: 0 <= i < |list| ==> TagOf(list[i]) == elementType || TagOf(list[i]) == END)
      && (elementType == END ==> forall i :: 0 <= i < |list| ==> TagOf(list[i]) == END)
    }

    /** The list as a tree value. */
    function Value(): Nbt
      reads this
    {
      List(elementType, list)
    }

    /** `new NBTList()`: empty with element type END. */
    constructor ()
      ensures Valid() && list == [] && elementType == END
    {
      list := [];
      elementType := END;
    }

    /** `new NBTList(Tag)`: empty with the given element type. */
    constructor OfType(t: Tag)
      ensures Valid() && list == [] && elementType == t
    {
      list := [];
      elementType := t;
    }

    /**
     * `new NBTList(int)`: the capacity is only a hint and the type stays END; a
     * negative capacity makes `new ArrayList<>(int)` throw IllegalArgumentException.
     */
    static method WithCapacity(capacity: int) returns (r: Result<NbtList, Thrown>)
      ensures r.Failure? <==> capacity < 0
      ensures r.Failure? ==> r.error == IllegalArgument
      ensures r.Success? ==> fresh(r.value) && r.value.Valid() && r.value.list == [] && r.value.elementType == END
    {
      if capacity < 0 {
        return Failure(IllegalArgument);
      }
      var c := new NbtList();
      return Success(c);
    }

    /** `check(nbt)`: rejects null and a tag other than the fixed type; an END-typed list adopts the element's tag. */
    method Check(e: Option<Nbt>) returns (r: Result<Nbt, Thrown>)
      requires Valid()
      modifies this`elementType
      ensures Valid()
      ensures r.Success? <==> e.Some? && Admit(old(elementType), e.value).Success?
      ensures r.Success? ==> r.value == e.value && elementType == Admit(old(elementType), e.value).value
      ensures r.Failure? ==> r.error == NBTException && elementType == old(elementType)
    {
      if e.None? {
        return Failure(NBTException);
      }
      var nbt := e.value;
      if elementType == END {
        elementType := TagOf(nbt);
        return Success(nbt);
      }
      if elementType != TagOf(nbt) {
        return Failure(NBTException);
      }
      return Success(nbt);
    }

    /** `add(nbt)`: appends after the type check; on failure nothing changes. */
    method Add(e: Option<Nbt>) returns (r: Result<bool, Thrown>)
      requires Valid()
      modifies this
      ensures Valid()
      ensures r.Success? <==> e.Some? && Admit(old(elementType), e.value).Success?
      ensures r.Success? ==>
        r.value && list == old(list) + [e.value] && elementType == Admit(old(elementType), e.value).value
      ensures r.Failure? ==> r.error == NBTException && list == old(list) && elementType == old(elementType)
    {
      var c := Check(e);
      if c.Failure? {
        return Failure(c.error);
      }
      list := list + [c.value];
      return Success(true);
    }

    /** `addValue(o)`: `add(NBT.convert(o))`, so a failed conversion or a null result throws. */
    method AddValue(o: Native) returns (r: Result<bool, Thrown>)
      requires Valid()
      modifies this
      ensures Valid()
      ensures Convert(o).Failure? ==> r == Failure(Convert(o).error) && list == old(list) && elementType == old(elementType)
      ensures Convert(o).Success? && Convert(o).value.None? ==>
        r == Failure(NBTException) && list == old(list) && elementType == old(elementType)
      ensures Convert(o).Success? && Convert(o).value.Some? ==>
        var e := Convert(o).value.value;
        (r.Success? <==> Admit(old(elementType), e).Success?)
        && (r.Success? ==> list == old(list) + [e] && elementType == Admit(old(elementType), e).value)
        && (r.Failure? ==> r.error == NBTException && list == old(list) && elementType == old(elementType))
    {
      var c := Convert(o);
      if c.Failure? {
        return Failure(c.error);
      }
      r := Add(c.value);
    }

    /**
     * `add(index, nbt)`: the type check runs first, so a bad index still leaves
     * the type it adopted; then the element is inserted at `index`.
     */
    method AddAt(index: int, e: Option<Nbt>) returns (r: Result<(), Thrown>)
      requires Valid()
      modifies this
      ensures Valid()
      ensures e.None? || Admit(old(elementType), e.value).Failure? ==>
        r == Failure(NBTException) && list == old(list) && elementType == old(elementType)
      ensures e.Some? && Admit(old(elementType), e.value).Success? ==>
        elementType == Admit(old(elementType), e.value).value
        && (if 0 <= index <= |old(list)|
            then r == Success(()) && list == old(list)[..index] + [e.value] + old(list)[index..]
            else r == Failure(IndexOutOfBounds) && list == old(list))
    {
      var c := Check(e);
      if c.Failure? {
        return Failure(c.error);
      }
      if !(0 <= index <= |list|) {
        return Failure(IndexOutOfBounds);
      }
      list := list[..index] + [c.value] + list[index..];
      return Success(());
    }

    /** `set(index, nbt)`: the type check runs first, then the slot is replaced and its old element returned. */
    method Set(index: int, e: Option<Nbt>) returns (r: Result<Nbt, Thrown>)
      requires Valid()
      modifies this
      ensures Valid()
      ensures e.None? || Admit(old(elementType), e.value).Failure? ==>
        r == Failure(NBTException) && list == old(list) && elementType == old(elementType)
      ensures e.Some? && Admit(old(elementType), e.value).Success? ==>
        elementType == Admit(old(elementType), e.value).value
        && (if 0 <= index < |old(list)|
            then r == Success(old(list)[index]) && list == old(list)[index := e.value]
            else r == Failure(IndexOutOfBounds) && list == old(list))
    {
      var c := Check(e);
      if c.Failure? {
        return Failure(c.error);
      }
      if !(0 <= index < |list|) {
        return Failure(IndexOutOfBounds);
      }
      r := Success(list[index]);
      list := list[index := c.value];
    }

    /** `remove(index)`: removes and returns one element; the element type is kept. */
    method Remove(index: int) returns (r: Result<Nbt, Thrown>)
      requires Valid()
      modifies this`list
      ensures Valid() && elementType == old(elementType)
      ensures 0 <= index < |old(list)| ==>
        r == Success(old(list)[index]) && list == old(list)[..index] + old(list)[index + 1..]
      ensures !(0 <= index < |old(list)|) ==> r == Failure(IndexOutOfBounds) && list == old(list)
    {
      if !(0 <= index < |list|) {
        return Failure(IndexOutOfBounds);
      }
      r := Success(list[index]);
      list := list[..index] + list[index + 1..];
    }

    /** `clear()`: empties the list but keeps its element type. */
    method Clear()
      requires Valid()
      modifies this`list
      ensures Valid() && list == [] && elementType == old(elementType)
    {
      list := [];
    }

    /** `get(index)` */
    method Get(index: int) returns (r: Result<Nbt, Thrown>)
      ensures 0 <= index < |list| <==> r.Success?
      ensures r.Success? ==> r.value == list[index]
      ensures r.Failure? ==> r.error == IndexOutOfBounds
    {
      if 0 <= index < |list| {
        r := Success(list[index]);
      } else {
        r := Failure(IndexOutOfBounds);
      }
    }

    /** `size()` and `getElementType()` */
    method SizeAndType() returns (n: nat, t: Tag)
      ensures n == |list| && t == elementType
    {
      n, t := |list|, elementType;
    }

    /** `equals(obj)` against another list: only the element sequences are compared. */
    predicate EqualsList(other: NbtList)
      reads this, other
      ensures EqualsList(other) ==> |list| == |other.list|
      ensures list == other.list ==> EqualsList(other)
    {
      Equals(Value(), other.Value())
    }

    /** `revert()`: a fresh Java list whose i-th entry is the revert of element i. */
    method RevertList() returns (r: seq<Native>)
      ensures |r| == |list|
      ensures forall i :: 0 <= i < |list| ==> r[i] == Revert(list[i])
      ensures JList(r) == Revert(Value())
    {
      r := [];
      var i := 0;
      while i < |list|
        invariant 0 <= i <= |list|
        invariant |r| == i
        invariant forall j :: 0 <= j < i ==> r[j] == Revert(list[j])
      {
        r := r + [Revert(list[i])];
        i := i + 1;
      }
    }

    /**
     * `clone()`: `new NBTList(list)` re-inserts every element into a fresh
     * list, so the clone's type is recomputed and the copy fails when the
     * elements are not homogeneous in order.
     */
    method Clone() returns (r: Result<NbtList, Thrown>)
      requires Valid()
      ensures r.Success? <==> AdmitAll(END, list).Success?
      ensures r.Success? ==>
        fresh(r.value) && r.value.Valid() && r.value.list == list && Values.Clone(Value()) == Success(r.value.Value())
      ensures r.Failure? ==> r.error == NBTException
    {
      var c := new NbtList();
      var i := 0;
      while i < |list|
        invariant 0 <= i <= |list|
        invariant fresh(c) && c.Valid()
        invariant c.list == list[..i]
        invariant AdmitAll(END, list[..i]) == Success(c.elementType)
      {
        assert list[..i + 1][..i] == list[..i];
        var added := c.Add(Some(list[i]));
        if added.Failure? {
          AdmitAllPrefixFails(END, list, i + 1);
          return Failure(added.error);
        }
        i := i + 1;
      }
      assert list[..i] == list;
      return Success(c);
    }
  }

  /** `new NBTList(collection)`: every element goes through `addValue`; the first failure is thrown. */
  method OfCollection(xs: seq<Native>) returns (r: Result<NbtList, Thrown>)
    ensures r.Success? <==> ListOf(JList(xs), |xs|).Success?
    ensures r.Success? ==> fresh(r.value) && r.value.Valid() && r.value.Value() == ListOf(JList(xs), |xs|).value
    ensures r.Failure? ==> r.error == ListOf(JList(xs), |xs|).error
  {
    var o := JList(xs);
    var made := NbtList.WithCapacity(|xs|);
    var c := made.value;
    var i := 0;
    while i < |xs|
      invariant 0 <= i <= |xs|
      invariant fresh(c) && c.Valid()
      invariant ListOf(o, i) == Success(c.Value())
    {
      var added := c.AddValue(xs[i]);
      if added.Failure? {
        assert ListOf(o, i + 1) == Failure(added.error);
        ListOfPrefixFails(o, i + 1, |xs|);
        return Failure(added.error);
      }
      i := i + 1;
    }
    return Success(c);
  }
}
