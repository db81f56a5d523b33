/**
 * `NBTOutputStream`: the writer that turns values into the binary NBT layout.
 * The underlying stream is the sequence of bytes written so far; every method
 * is proved to append exactly the bytes the `Codec` functions describe and to
 * report the exception they describe.
 */
module OutputStreams {
  import opened Wrappers
  import opened JavaInts
  import opened Tags
  import opened Values
  import opened Conversion
  import opened Codec
  import Utf

  /** `x >>> 8*k` on the `w`-byte two's-complement pattern of `x` (w is 4 for an int, 8 for a long). */
  function UnsignedShift(x: int, w: nat, k: nat): int
  {
    (x % Pow256(w)) / Pow256(k)
  }

  /** Masking the shifted pattern to its low byte gives byte `w-1-k` of the big-endian layout. */
  lemma ShiftedByte(x: int, w: nat, k: nat)
    requires k < w
    ensures UnsignedShift(x, w, k) % 256 == ToBytes(x, w)[w - 1 - k]
  {
    var m := Pow256(w);
    DivMod(x, m);
    DivModUnique(x - x % m, m, x / m, 0);
    ToBytesCongruent(x, x % m, w);
    ToBytesAt(x % m, w, w - 1 - k);
  }

  lemma Concat3<T>(a: seq<T>, b: seq<T>, c: seq<T>)
    ensures a + b + c == a + (b + c)
  {
  }

  /** Casting a masked byte to `byte` and writing it writes the masked value back. */
  lemma ByteCastKept(y: int)
    requires 0 <= y < 256
    ensures ToI8(y) % 256 == y
  {
  }

  class NbtOutputStream {
    /** Everything written to the underlying stream so far. */
    var out: seq<u8>

    /** A stream over an empty sink; compression is not part of this model. */
    constructor ()
      ensures out == []
    {
      out := [];
    }

    /** `write(int)`: the low eight bits of `b`. */
    method Write(b: int)
      modifies this
      ensures out == old(out) + [b % 256]
    {
      out := out + [b % 256];
    }

    /** `write(byte[])` */
    method WriteBytes(bs: seq<u8>)
      modifies this
      ensures out == old(out) + bs
    {
      out := out + bs;
    }

    method WriteTag(t: Tag)
      modifies this
      ensures out == old(out) + TagBytes(t)
    {
      Write(Id(t));
    }

    method WriteEnd()
      modifies this
      ensures out == old(out) + TagBytes(END)
    {
      WriteTag(END);
    }

    method WriteByte(b: i8)
      modifies this
      ensures out == old(out) + ByteBytes(b)
    {
      Write(b);
    }

    /** `writeShort`: `value >>> 8` of the sign-extended int, then `value & 0xFF`. */
    method WriteShort(x: i16)
      modifies this
      ensures out == old(out) + ToBytes(x, 2)
    {
      var high := UnsignedShift(x, 4, 1);
      Write(high);
      Write(x % 256);
      ShiftedByte(x, 4, 1);
      ToBytesAt(x, 4, 2);
      ToBytesAt(x, 2, 0);
      ToBytesAt(x, 2, 1);
      DivModUnique(x % 256, 256, 0, x % 256);
      assert [high % 256] + [(x % 256) % 256] == ToBytes(x, 2);
    }

    /** `writeInt`: four bytes, `(byte) (value >>> 8*i & 0xFF)` for i from 3 down to 0. */
    method WriteInt(x: i32)
      modifies this
      ensures out == old(out) + ToBytes(x, 4)
    {
      var i := 3;
      while i >= 0
        invariant -1 <= i <= 3
        invariant out == old(out) + ToBytes(x, 4)[..3 - i]
      {
        var y := UnsignedShift(x, 4, i) % 256;
        ShiftedByte(x, 4, i);
        ByteCastKept(y);
        Write(ToI8(y));
        assert ToBytes(x, 4)[..3 - i + 1] == ToBytes(x, 4)[..3 - i] + [ToBytes(x, 4)[3 - i]];
        i := i - 1;
      }
    }

    /** `writeLong`: eight bytes, most significant first. */
    method WriteLong(x: i64)
      modifies this
      ensures out == old(out) + ToBytes(x, 8)
    {
      var i := 7;
      while i >= 0
        invariant -1 <= i <= 7
        invariant out == old(out) + ToBytes(x, 8)[..7 - i]
      {
        var y := UnsignedShift(x, 8, i) % 256;
        ShiftedByte(x, 8, i);
        ByteCastKept(y);
        Write(ToI8(y));
        assert ToBytes(x, 8)[..7 - i + 1] == ToBytes(x, 8)[..7 - i] + [ToBytes(x, 8)[7 - i]];
        i := i - 1;
      }
    }

    /** `writeFloat`: the int whose bits are the float's. */
    method WriteFloat(bits: Bits32)
      modifies this
      ensures out == old(out) + ToBytes(bits, 4)
    {
      WriteInt(ToI32(bits));
      SignedCongruent(bits, 4);
      ToBytesCongruent(bits, ToI32(bits), 4);
    }

    /** `writeDouble`: the long whose bits are the double's. */
    method WriteDouble(bits: Bits64)
      modifies this
      ensures out == old(out) + ToBytes(bits, 8)
    {
      WriteLong(ToI64(bits));
      SignedCongruent(bits, 8);
      ToBytesCongruent(bits, ToI64(bits), 8);
    }

    /** `writeString`: the UTF-16 length as a short, then the UTF-8 bytes unless that length is below 1. */
    method WriteString(s: Option<string>)
      modifies this
      ensures out == old(out) + StringBytes(s)
    {
      var length := if s.None? then 0 else Utf.Utf16Length(s.value);
      WriteShort(ToI16(length));
      if length < 1 {
        return;
      }
      WriteBytes(Utf.Encode(s.value));
    }

    /** `writeByteArray`: the count, then the bytes; null writes a zero count. */
    method WriteByteArray(value: Option<seq<i8>>)
      modifies this
      ensures out == old(out) + if value.None? then IntBytes(0) else LeafBytes(ByteArray(value.value))
    {
      if value.None? {
        WriteInt(0);
        return;
      }
      var bs := value.value;
      WriteInt(ToI32(|bs|));
      LengthBytes(|bs|);
      WriteBytes(RawBytes(bs));
      Concat3(old(out), IntBytes(|bs|), RawBytes(bs));
    }

    /** `writeIntArray`: the count, then each int; null writes a zero count. */
    method WriteIntArray(value: Option<seq<i32>>)
      modifies this
      ensures out == old(out) + if value.None? then IntBytes(0) else LeafBytes(IntArray(value.value))
    {
      if value.None? {
        WriteInt(0);
        return;
      }
      var xs := value.value;
      WriteInt(ToI32(|xs|));
      LengthBytes(|xs|);
      ghost var header := out;
      var i := 0;
      while i < |xs|
        invariant 0 <= i <= |xs|
        invariant out + IntsBytes(xs[i..]) == header + IntsBytes(xs)
      {
        assert IntsBytes(xs[i..]) == ToBytes(xs[i], 4) + IntsBytes(xs[i + 1..]) by {
          assert xs[i..][0] == xs[i] && xs[i..][1..] == xs[i + 1..];
        }
        Concat3(out, ToBytes(xs[i], 4), IntsBytes(xs[i + 1..]));
        WriteInt(xs[i]);
        i := i + 1;
      }
      assert xs[i..] == [];
      Concat3(old(out), IntBytes(|xs|), IntsBytes(xs));
    }

    /** `writeLongArray`: the count, then each long; null writes a zero count. */
    method WriteLongArray(value: Option<seq<i64>>)
      modifies this
      ensures out == old(out) + if value.None? then IntBytes(0) else LeafBytes(LongArray(value.value))
    {
      if value.None? {
        WriteInt(0);
        return;
      }
      var xs := value.value;
      WriteInt(ToI32(|xs|));
      LengthBytes(|xs|);
      ghost var header := out;
      var i := 0;
      while i < |xs|
        invariant 0 <= i <= |xs|
        invariant out + LongsBytes(xs[i..]) == header + LongsBytes(xs)
      {
        assert LongsBytes(xs[i..]) == ToBytes(xs[i], 8) + LongsBytes(xs[i + 1..]) by {
          assert xs[i..][0] == xs[i] && xs[i..][1..] == xs[i + 1..];
        }
        Concat3(out, ToBytes(xs[i], 8), LongsBytes(xs[i + 1..]));
        WriteLong(xs[i]);
        i := i + 1;
      }
      assert xs[i..] == [];
      Concat3(old(out), IntBytes(|xs|), LongsBytes(xs));
    }

    /**
     * `writeNBT(v)`: the writer registered for the value's tag, applied to the
     * value. The exception that stops the write, if any, is returned.
     */
    method WritePayload(v: Nbt, order: KeyOrder) returns (err: Option<Thrown>)
      requires ValidOrder(order)
      modifies this
      ensures out == old(out) + Payload(v, order).bytes
      ensures err == Payload(v, order).error
      decreases v, 2
    {
      err := None;
      match v
      case End => WriteEnd();
      case Byte(b) => WriteByte(b);
      case Short(x) => WriteShort(x);
      case Int(x) => WriteInt(x);
      case Long(x) => WriteLong(x);
      case Float(bits) => WriteFloat(bits);
      case Double(bits) => WriteDouble(bits);
      case ByteArray(bs) => WriteByteArray(Some(bs));
      case Str(s) => WriteString(Some(s));
      case IntArray(xs) => WriteIntArray(Some(xs));
      case LongArray(xs) => WriteLongArray(Some(xs));
      case List(_, _) => err := WriteList(Some(v), order);
      case Compound(_) => err := WriteCompound(Some(v), order);
    }

    /**
     * `writeList(collection)`: null writes END and a zero count; otherwise the
     * elements are gathered into a fresh list (which throws when their tags
     * differ), then its element tag, the count and each element are written.
     */
    method WriteList(value: Option<Nbt>, order: KeyOrder) returns (err: Option<Thrown>)
      requires ValidOrder(order) && (value.Some? ==> value.value.List?)
      modifies this
      ensures value.None? ==> out == old(out) + TagBytes(END) + IntBytes(0) && err == None
      ensures value.Some? ==> out == old(out) + ListPayload(value.value, order).bytes
      ensures value.Some? ==> err == ListPayload(value.value, order).error
      decreases if value.Some? then value.value.items else [], 1
    {
      if value.None? {
        WriteEnd();
        WriteInt(0);
        return None;
      }
      var v := value.value;
      var t := AdmitAll(END, v.items);
      if t.Failure? {
        return Some(t.error);
      }
      ghost var goal := Then(Ok(old(out)), ListPayload(v, order));
      WriteTag(t.value);
      WriteInt(ToI32(|v.items|));
      LengthBytes(|v.items|);
      Concat3(old(out), TagBytes(t.value), IntBytes(|v.items|));
      ThenAccumulates(old(out), Ok(TagBytes(t.value) + IntBytes(|v.items|)), ElementsFrom(v, order, 0), goal);
      var i := 0;
      while i < |v.items|
        invariant 0 <= i <= |v.items|
        invariant Then(Ok(out), ElementsFrom(v, order, i)) == goal
      {
        ghost var before := out;
        var e := WritePayload(v.items[i], order);
        ThenAccumulates(before, Payload(v.items[i], order), ElementsFrom(v, order, i + 1), goal);
        if e.Some? {
          return e;
        }
        i := i + 1;
      }
      assert out + [] == out;
      return None;
    }

    /**
     * `writeCompound(map)`: null is converted to End and the cast to a compound
     * throws; a map holding an End value throws while being converted;
     * otherwise each entry in iteration order as (tag, name, payload), then END.
     */
    method WriteCompound(value: Option<Nbt>, order: KeyOrder) returns (err: Option<Thrown>)
      requires ValidOrder(order) && (value.Some? ==> value.value.Compound?)
      modifies this
      ensures value.None? ==> out == old(out) && err == Some(ClassCast)
      ensures value.Some? ==> out == old(out) + CompoundPayload(value.value, order).bytes
      ensures value.Some? ==> err == CompoundPayload(value.value, order).error
      decreases if value.Some? then value.value else End, 1
    {
      if value.None? {
        return Some(ClassCast);
      }
      var v := value.value;
      if exists k :: k in v.entries && v.entries[k] == End {
        assert CompoundPayload(v, order) == Written([], Some(NBTException));
        return Some(NBTException);
      }
      err := WriteEntries(v, order);
      if err.Some? {
        return;
      }
      WriteEnd();
    }

    /** The loop of `writeCompound` over the entries, in iteration order. */
    method WriteEntries(v: Nbt, order: KeyOrder) returns (err: Option<Thrown>)
      requires ValidOrder(order) && v.Compound?
      modifies this
      ensures out == old(out) + EntriesFrom(v, order, 0).bytes
      ensures err == EntriesFrom(v, order, 0).error
      decreases v, 0
    {
      var ks := order(v.entries);
      ghost var goal := Then(Ok(old(out)), EntriesFrom(v, order, 0));
      var i := 0;
      while i < |ks|
        invariant 0 <= i <= |ks|
        invariant Then(Ok(out), EntriesFrom(v, order, i)) == goal
      {
        var k := ks[i];
        EntriesStep(v, order, i);
        ghost var before := out;
        var e := WriteEntry(k, v.entries[k], order);
        ghost var head := Then(Ok(TagBytes(TagOf(v.entries[k])) + StringBytes(Some(k))), Payload(v.entries[k], order));
        ThenAccumulates(before, head, EntriesFrom(v, order, i + 1), goal);
        if e.Some? {
          return e;
        }
        i := i + 1;
      }
      assert out + [] == out;
      return None;
    }

    /** One entry of `writeCompound`: the value's tag, the name, then the value. */
    method WriteEntry(k: string, x: Nbt, order: KeyOrder) returns (err: Option<Thrown>)
      requires ValidOrder(order)
      modifies this
      ensures out == old(out) + Then(Ok(TagBytes(TagOf(x)) + StringBytes(Some(k))), Payload(x, order)).bytes
      ensures err == Payload(x, order).error
      decreases x, 3
    {
      WriteTag(TagOf(x));
      WriteString(Some(k));
      Concat3(old(out), TagBytes(TagOf(x)), StringBytes(Some(k)));
      err := WritePayload(x, order);
      Concat3(old(out), TagBytes(TagOf(x)) + StringBytes(Some(k)), Payload(x, order).bytes);
    }

    /** `writeObject(o)`: the converted value, or IllegalArgument when `convert` gives null. */
    method WriteObject(o: Native, order: KeyOrder) returns (err: Option<Thrown>)
      requires ValidOrder(order)
      modifies this
      ensures Convert(o).Failure? ==> out == old(out) && err == Some(Convert(o).error)
      ensures Convert(o) == Success(None) ==> out == old(out) && err == Some(IllegalArgument)
      ensures Convert(o).Success? && Convert(o).value.Some? ==>
        out == old(out) + Payload(Convert(o).value.value, order).bytes && err == Payload(Convert(o).value.value, order).error
    {
      var c := Convert(o);
      if c.Failure? {
        return Some(c.error);
      }
      if c.value.None? {
        return Some(IllegalArgument);
      }
      err := WritePayload(c.value.value, order);
    }

    /**
     * `writeRootCompound(compound, rootName)`: null writes END alone; otherwise
     * the COMPOUND tag, the name (written as an object) unless it is null, and
     * the payload.
     */
    method WriteRootCompound(c: Option<Nbt>, rootName: Option<string>, order: KeyOrder) returns (err: Option<Thrown>)
      requires ValidOrder(order) && (c.Some? ==> c.value.Compound?)
      modifies this
      ensures out == old(out) + RootBytes(c, rootName, order).bytes
      ensures err == RootBytes(c, rootName, order).error
    {
      if c.None? {
        WriteEnd();
        return None;
      }
      WriteTag(COMPOUND);
      ghost var head := TagBytes(COMPOUND);
      if rootName.Some? {
        err := WriteRootName(rootName.value, order);
        head := head + StringBytes(rootName);
      }
      ghost var mid := out;
      err := WritePayload(c.value, order);
      RootWritten(c.value, rootName, order, head);
      Appended(old(out), head, mid, Payload(c.value, order), out, RootBytes(c, rootName, order));
    }

    /** The root name, written by `writeObject` as a string payload, which never throws. */
    method WriteRootName(name: string, order: KeyOrder) returns (err: Option<Thrown>)
      requires ValidOrder(order)
      modifies this
      ensures out == old(out) + StringBytes(Some(name)) && err == None
    {
      NameAsObject(name, order);
      err := WriteObject(Text(name), order);
    }

    /** `writeRootCompound(compound)`: the root name is the empty string. */
    method WriteUnnamedRoot(c: Option<Nbt>, order: KeyOrder) returns (err: Option<Thrown>)
      requires ValidOrder(order) && (c.Some? ==> c.value.Compound?)
      modifies this
      ensures out == old(out) + RootBytes(c, Some(""), order).bytes
      ensures err == RootBytes(c, Some(""), order).error
    {
      err := WriteRootCompound(c, Some(""), order);
    }
  }

  /** A root compound's bytes: the COMPOUND tag and the name, then the payload. */
  lemma RootWritten(v: Nbt, rootName: Option<string>, order: KeyOrder, head: seq<u8>)
    requires ValidOrder(order) && v.Compound?
    requires head == TagBytes(COMPOUND) + (if rootName.Some? then StringBytes(rootName) else [])
    ensures RootBytes(Some(v), rootName, order) == Written(head + Payload(v, order).bytes, Payload(v, order).error)
  {
  }

  /** Bytes `head` then the bytes of `w` after `before`: `before` then the bytes of `r`, which are `head` and those of `w`. */
  lemma Appended(before: seq<u8>, head: seq<u8>, mid: seq<u8>, w: Written, after: seq<u8>, r: Written)
    requires mid == before + head && after == mid + w.bytes && r == Written(head + w.bytes, w.error)
    ensures after == before + r.bytes
  {
    Concat3(before, head, w.bytes);
  }

  /** Writing `head` after `done` bytes, then the rest: an exception in `head` ends the write there. */
  lemma ThenAccumulates(done: seq<u8>, head: Written, rest: Written, all: Written)
    requires Then(Ok(done), Then(head, rest)) == all
    ensures head.error.Some? ==> all == Written(done + head.bytes, head.error)
    ensures head.error.None? ==> Then(Ok(done + head.bytes), rest) == all
  {
    if head.error.None? {
      Concat3(done, head.bytes, rest.bytes);
    }
  }

  /** Entry `i` of the iteration order is a key of the compound, and its bytes come first. */
  lemma EntriesStep(v: Nbt, order: KeyOrder, i: nat)
    requires v.Compound? && ValidOrder(order) && i < |order(v.entries)|
    ensures order(v.entries)[i] in v.entries
    ensures var k := order(v.entries)[i];
      EntriesFrom(v, order, i)
      == Then(Then(Ok(TagBytes(TagOf(v.entries[k])) + StringBytes(Some(k))), Payload(v.entries[k], order)), EntriesFrom(v, order, i + 1))
  {
    assert Enumerates(order(v.entries), v.entries);
  }

  /** A root name written as an object is converted to a String tag and written as a string. */
  lemma NameAsObject(name: string, order: KeyOrder)
    requires ValidOrder(order)
    ensures Convert(Text(name)) == Success(Some(Str(name)))
    ensures Payload(Str(name), order) == Ok(StringBytes(Some(name)))
  {
    ConvertByClass(Text(name));
  }

  /** Writing a length as a Java int writes the same four bytes as the length itself. */
  lemma LengthBytes(n: nat)
    ensures ToBytes(ToI32(n), 4) == IntBytes(n)
  {
    SignedCongruent(n, 4);
    assert (ToI32(n) - n) % Pow256(4) == 0 by {
      DivMod(n - ToI32(n), Pow256(4));
      DivModUnique(ToI32(n) - n, Pow256(4), -((n - ToI32(n)) / Pow256(4)), 0);
    }
    ToBytesCongruent(ToI32(n), n, 4);
  }

  /** The `n`-byte layout depends only on the value modulo 256^n. */
  lemma {:induction false} ToBytesCongruent(x: int, y: int, n: nat)
    requires (x - y) % Pow256(n) == 0
    ensures ToBytes(x, n) == ToBytes(y, n)
    decreases n
  {
    if n > 0 {
      var p := Pow256(n - 1);
      var q := (x - y) / Pow256(n);
      DivMod(x - y, Pow256(n));
      DivMod(x, 256);
      DivMod(y, 256);
      var a, r := x / 256, x % 256;
      var b, s := y / 256, y % 256;
      assert 256 * (p * q - (a - b)) == r - s by {
        MulAssoc(256, p, q);
        Distrib(256, p * q, -(a - b));
      }
      assert r == s;
      assert a - b == p * q + 0;
      DivModUnique(a - b, p, q, 0);
      ToBytesCongruent(a, b, n - 1);
    }
  }
}
