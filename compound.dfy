/** `NBTCompound`: a mutable map from string keys to non-End values. */
module Compounds {
  import opened Wrappers
  import opened Tags
  import opened Values
  import opened Conversion

  /** A converted value is End only when it came from null or from End itself. */
  lemma ConvertedNotEnd(o: Native)
    requires !o.Null? && o != Tree(End)
    requires Convert(o).Success? && Convert(o).value.Some?
    ensures TagOf(Convert(o).value.value) != END
  {
    if !o.Tree? && !o.Bool? {
      ConvertByClass(o);
    }
  }

  /** The values a compound stores after `set` has converted the given Java map's non-null entries. */
  lemma CompoundOfHasNoEnd(m: map<string, Native>)
    requires CompoundOf(JMap(m)).Success?
    ensures forall k :: k in CompoundOf(JMap(m)).value.entries ==> TagOf(CompoundOf(JMap(m)).value.entries[k]) != END
  {
    forall k | k in CompoundOf(JMap(m)).value.entries
      ensures TagOf(CompoundOf(JMap(m)).value.entries[k]) != END
    {
      assert !Rejects(m[k]) && !StoresNull(m[k]);
      ConvertedNotEnd(m[k]);
    }
  }

  /** A map holding the revert of each entry is the revert of the compound. */
  lemma RevertOfEntries(m: map<string, Nbt>, r: map<string, Native>)
    requires r.Keys == m.Keys
    requires forall k :: k in m ==> r[k] == Revert(m[k])
    ensures JMap(r) == Revert(Compound(m))
  {
    var reverted := map k | k in m :: Revert(m[k]);
    assert reverted.Keys == r.Keys;
    assert reverted == r;
  }

  class NbtCompound {
    /** The private `map` field. */
    var entries: map<string, Nbt>

    /** No stored value is End. */
    ghost predicate Valid()
      reads this
    {
      forall k :: k in entries ==> TagOf(entries[k]) != END
    }

    /** The compound as a tree value. */
    function Value(): Nbt
      reads this
    {
      Compound(entries)
    }

    /** `new NBTCompound()` */
    constructor ()
      ensures Valid() && entries == map[]
    {
      entries := map[];
    }

    /**
     * `set(key, value)`: a null key or an End value throws before anything
     * changes; a null value removes the key; anything else is converted and stored.
     */
    method Set(key: Option<string>, value: Native) returns (r: Result<(), Thrown>)
      requires Valid()
      modifies this
      ensures Valid()
      ensures key.None? || value == Tree(End) ==> r == Failure(NBTException) && entries == old(entries)
      ensures key.Some? && value.Null? ==> r == Success(()) && entries == old(entries) - {key.value}
      ensures key.Some? && !value.Null? && value != Tree(End) && Convert(value).Failure? ==>
        r == Failure(Convert(value).error) && entries == old(entries)
      ensures key.Some? && !value.Null? && value != Tree(End) && Convert(value) == Success(None) ==>
        r == Failure(NullEntry) && entries == old(entries)
      ensures key.Some? && !value.Null? && value != Tree(End) && Convert(value).Success? && Convert(value).value.Some? ==>
        r == Success(()) && entries == old(entries)[key.value := Convert(value).value.value]
    {
      if key.None? || value == Tree(End) {
        return Failure(NBTException);
      }
      if value.Null? {
        entries := entries - {key.value};
        return Success(());
      }
      var c := Convert(value);
      if c.Failure? {
        return Failure(c.error);
      }
      if c.value.None? {
        return Failure(NullEntry);
      }
      ConvertedNotEnd(value);
      entries := entries[key.value := c.value.value];
      return Success(());
    }

    /** `remove(key)`: returns the previous value, or null when there was none. */
    method Remove(key: Option<string>) returns (prev: Option<Nbt>)
      requires Valid()
      modifies this
      ensures Valid()
      ensures prev == old(GetNbt(key))
      ensures !ContainsKey(key)
      ensures entries == if key.Some? then old(entries) - {key.value} else old(entries)
    {
      if key.None? {
        return None;
      }
      prev := if key.value in entries then Some(entries[key.value]) else None;
      entries := entries - {key.value};
    }

    /** `clear()` */
    method Clear()
      modifies this
      ensures Valid() && entries == map[]
    {
      entries := map[];
    }

    /** `containsKey(key)`: false for a null key. */
    predicate ContainsKey(key: Option<string>)
      reads this
      ensures ContainsKey(key) ==> key.Some?
      ensures key.Some? ==> (ContainsKey(key) <==> key.value in entries.Keys)
    {
      key.Some? && key.value in entries
    }

    /** `getNBT(key)`: the stored value, or null. */
    function GetNbt(key: Option<string>): (r: Option<Nbt>)
      reads this
      ensures r.Some? <==> ContainsKey(key)
      ensures r.Some? ==> r.value == entries[key.value]
    {
      if key.Some? && key.value in entries then Some(entries[key.value]) else None
    }

    /** `getNBT(key, default)`: the default exactly when nothing is stored under the key. */
    function GetNbtOr(key: Option<string>, default: Option<Nbt>): (r: Option<Nbt>)
      reads this
      ensures !ContainsKey(key) ==> r == default
      ensures ContainsKey(key) ==> r == Some(entries[key.value])
    {
      var value := GetNbt(key);
      if value.Some? then value else default
    }

    /** `getValue(key)`: the revert of the stored value; null when absent. */
    function GetValue(key: Option<string>): (r: Native)
      reads this
      ensures !ContainsKey(key) ==> r == Null
      ensures ContainsKey(key) ==> r == Revert(entries[key.value])
    {
      var value := GetNbt(key);
      if value.Some? then Revert(value.value) else Null
    }

    /** `size()` and `isEmpty()` */
    method Size() returns (n: nat, empty: bool)
      ensures n == |entries| && (empty <==> entries == map[])
    {
      n := |entries|;
      empty := n == 0;
    }

    /** `containsTag(tag)`: false for null and END; otherwise whether some value has that tag. */
    method ContainsTag(t: Option<Tag>) returns (found: bool)
      ensures found <==> t.Some? && t.value != END && exists k :: k in entries && TagOf(entries[k]) == t.value
    {
      if t.None? || t.value == END {
        return false;
      }
      var remaining := entries.Keys;
      while remaining != {}
        invariant remaining <= entries.Keys
        invariant forall k :: k in entries && k !in remaining ==> TagOf(entries[k]) != t.value
        decreases remaining
      {
        var k :| k in remaining;
        if TagOf(entries[k]) == t.value {
          return true;
        }
        remaining := remaining - {k};
      }
      return false;
    }

    /** `containsValue(value)`: null is never contained; otherwise the converted value is compared with `equals`. */
    method ContainsValue(value: Native) returns (r: Result<bool, Thrown>)
      ensures value.Null? ==> r == Success(false)
      ensures !value.Null? && Convert(value).Failure? ==> r == Failure(Convert(value).error)
      ensures !value.Null? && Convert(value) == Success(None) ==> r == Success(false)
      ensures !value.Null? && Convert(value).Success? && Convert(value).value.Some? ==>
        r.Success? && (r.value <==> exists k :: k in entries && Equals(Convert(value).value.value, entries[k]))
    {
      if value.Null? {
        return Success(false);
      }
      var c := Convert(value);
      if c.Failure? {
        return Failure(c.error);
      }
      if c.value.None? {
        return Success(false);
      }
      var remaining := entries.Keys;
      while remaining != {}
        invariant remaining <= entries.Keys
        invariant forall k :: k in entries && k !in remaining ==> !Equals(c.value.value, entries[k])
        decreases remaining
      {
        var k :| k in remaining;
        if Equals(c.value.value, entries[k]) {
          return Success(true);
        }
        remaining := remaining - {k};
      }
      return Success(false);
    }

    /** `equals(obj)` against another compound: the key/value maps are compared, whatever the insertion order. */
    predicate EqualsCompound(other: NbtCompound)
      reads this, other
      ensures EqualsCompound(other) ==> entries.Keys == other.entries.Keys
      ensures entries == other.entries ==> EqualsCompound(other)
    {
      Equals(Value(), other.Value())
    }

    /** `revert()`: a fresh Java map holding the revert of each stored value. */
    method RevertMap() returns (r: map<string, Native>)
      ensures r.Keys == entries.Keys
      ensures forall k :: k in entries ==> r[k] == Revert(entries[k])
      ensures JMap(r) == Revert(Value())
    {
      r := map[];
      var remaining := entries.Keys;
      while remaining != {}
        invariant remaining <= entries.Keys
        invariant r.Keys == entries.Keys - remaining
        invariant forall k :: k in r ==> r[k] == Revert(entries[k])
        decreases remaining
      {
        var k :| k in remaining;
        r := r[k := Revert(entries[k])];
        remaining := remaining - {k};
      }
      RevertOfEntries(entries, r);
    }

    /**
     * `clone()`: `new NBTCompound(map)` sets every entry into a fresh compound.
     * The map is new, the stored values are the same ones.
     */
    method Clone() returns (c: NbtCompound)
      requires Valid()
      ensures fresh(c) && c.Valid() && c.entries == entries
      ensures c.EqualsCompound(this) && this.EqualsCompound(c)
    {
      c := new NbtCompound();
      var remaining := entries.Keys;
      while remaining != {}
        invariant fresh(c) && c.Valid()
        invariant remaining <= entries.Keys
        invariant c.entries == (map k | k in entries && k !in remaining :: entries[k])
        decreases remaining
      {
        var k :| k in remaining;
        var done := c.Set(Some(k), Tree(entries[k]));
        remaining := remaining - {k};
      }
      assert c.entries == entries;
      EqualsIsEquivalence(Value(), Value(), Value());
    }
  }

  /**
   * `new NBTCompound(map)`: each entry is passed to `set` in the map's
   * iteration order. It succeeds exactly when the value-level conversion does;
   * which failure is reported first depends on that order.
   */
  method OfMap(m: map<string, Native>) returns (r: Result<NbtCompound, Thrown>)
    ensures r.Success? <==> CompoundOf(JMap(m)).Success?
    ensures r.Success? ==> fresh(r.value) && r.value.Valid() && r.value.Value() == CompoundOf(JMap(m)).value
  {
    var c := new NbtCompound();
    var remaining := m.Keys;
    while remaining != {}
      invariant fresh(c) && c.Valid()
      invariant remaining <= m.Keys
      invariant forall k :: k in m && k !in remaining ==> Storable(m[k])
      invariant c.entries == ConvertedPart(m, remaining)
      decreases remaining
    {
      var k :| k in remaining;
      ghost var before := c.entries;
      var done := c.Set(Some(k), m[k]);
      if done.Failure? {
        assert !Storable(m[k]);
        return Failure(done.error);
      }
      ConvertedStep(m, remaining, k, before, c.entries);
      remaining := remaining - {k};
    }
    ConvertedAll(m);
    return Success(c);
  }

  /** Setting the entry `o` neither throws nor is refused for a null conversion. */
  predicate Storable(o: Native)
  {
    !Rejects(o) && !StoresNull(o)
  }

  /** What the compound holds once every key outside `remaining` has been set. */
  function ConvertedPart(m: map<string, Native>, remaining: set<string>): map<string, Nbt>
  {
    map k | k in m && k !in remaining && m[k] != Null && Convert(m[k]).Success? && Convert(m[k]).value.Some? ::
      Convert(m[k]).value.value
  }

  lemma ConvertedStep(m: map<string, Native>, remaining: set<string>, k: string, before: map<string, Nbt>, after: map<string, Nbt>)
    requires k in remaining && k in m && Storable(m[k])
    requires before == ConvertedPart(m, remaining)
    requires m[k].Null? ==> after == before - {k}
    requires !m[k].Null? ==> Convert(m[k]).Success? && Convert(m[k]).value.Some? && after == before[k := Convert(m[k]).value.value]
    ensures after == ConvertedPart(m, remaining - {k})
  {
  }

  lemma ConvertedAll(m: map<string, Native>)
    requires forall k :: k in m ==> Storable(m[k])
    ensures CompoundOf(JMap(m)).Success? && CompoundOf(JMap(m)).value.entries == ConvertedPart(m, {})
  {
  }

  /**
   * The map `ofEntries` builds from its first `n` entries: each value is
   * converted (a null conversion is an illegal argument), then `set` rejects
   * a null key or an End value; a later duplicate key replaces the earlier value.
   */
  function EntriesOf(es: seq<(Option<string>, Native)>, n: nat): (r: Result<map<string, Nbt>, Thrown>)
    requires n <= |es|
    ensures r.Success? ==> forall k :: k in r.value ==> TagOf(r.value[k]) != END
  {
    if n == 0 then Success(map[])
    else
      var prev := EntriesOf(es, n - 1);
      if prev.Failure? then prev
      else
        var (key, o) := es[n - 1];
        var c := Convert(o);
        if c.Failure? then Failure(c.error)
        else if c.value.None? then Failure(IllegalArgument)
        else if key.None? || TagOf(c.value.value) == END then Failure(NBTException)
        else Success(prev.value[key.value := c.value.value])
  }

  /** `NBTCompound.ofEntries(...)`: every value must convert, then goes through `set`. */
  method OfEntries(es: seq<(Option<string>, Native)>) returns (r: Result<NbtCompound, Thrown>)
    ensures r.Success? <==> EntriesOf(es, |es|).Success?
    ensures r.Success? ==> fresh(r.value) && r.value.Valid() && r.value.entries == EntriesOf(es, |es|).value
    ensures r.Failure? ==> r.error == EntriesOf(es, |es|).error
  {
    var c := new NbtCompound();
    var i := 0;
    while i < |es|
      invariant 0 <= i <= |es|
      invariant fresh(c) && c.Valid()
      invariant EntriesOf(es, i) == Success(c.entries)
    {
      var key, value := es[i].0, es[i].1;
      var converted := Convert(value);
      EntriesOfStep(es, i, c.entries);
      if converted.Failure? || converted.value.None? || key.None? || TagOf(converted.value.value) == END {
        EntriesOfPrefixFails(es, i + 1, |es|);
        if converted.Failure? {
          return Failure(converted.error);
        } else if converted.value.None? {
          return Failure(IllegalArgument);
        }
        return Failure(NBTException);
      }
      var done := c.Set(key, Tree(converted.value.value));
      i := i + 1;
    }
    return Success(c);
  }

  /** One more entry, given the map built from the entries before it. */
  lemma EntriesOfStep(es: seq<(Option<string>, Native)>, i: nat, prev: map<string, Nbt>)
    requires i < |es| && EntriesOf(es, i) == Success(prev)
    ensures var c := Convert(es[i].1);
      EntriesOf(es, i + 1) ==
        if c.Failure? then Failure(c.error)
        else if c.value.None? then Failure(IllegalArgument)
        else if es[i].0.None? || TagOf(c.value.value) == END then Failure(NBTException)
        else Success(prev[es[i].0.value := c.value.value])
  {
  }

  /** The first failing entry decides the outcome of `ofEntries`. */
  lemma {:induction false} EntriesOfPrefixFails(es: seq<(Option<string>, Native)>, i: nat, n: nat)
    requires i <= n <= |es| && EntriesOf(es, i).Failure?
    ensures EntriesOf(es, n) == Failure(EntriesOf(es, i).error)
    decreases n - i
  {
    if i < n {
      EntriesOfPrefixFails(es, i, n - 1);
    }
  }
}
