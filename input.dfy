/**
 * `NBTInputStream`: the reader of the binary NBT layout. The underlying
 * stream is the sequence of its bytes and the number of them already
 * consumed; every method is proved to return exactly the value the `Codec`
 * readers describe, to stop where they say, and to throw what they say.
 */
module InputStreams {
  import opened Wrappers
  import opened JavaInts
  import opened Tags
  import opened Values
  import opened Codec
  import CodecLaws
  import Utf

  /** A method's result and the position it stopped at, in the form the `Codec` readers return. */
  function Outcome<T>(r: Result<T, Thrown>, p: nat): Result<Read<T>, Thrown>
  {
    if r.Success? then Success(Read(r.value, p)) else Failure(r.error)
  }

  /** `GZIP_HEADER_BYTES`: the short 0x1F8B split into its two bytes, as Java's signed bytes. */
  const GzipHeaderBytes: seq<i8> := [ToI8(0x1F8B / 256), ToI8(0x1F8B % 256)]

  /** The two bytes `unzipIfNecessary` peeks at: at most two, fewer when the stream is shorter. */
  function Peek(rest: seq<u8>): (header: seq<u8>)
    ensures |header| <= 2 && |header| <= |rest| && header == rest[..|header|]
    ensures |header| == 2 || header == rest
  {
    if |rest| < 2 then rest else rest[..2]
  }

  /** Comparing the peeked bytes with `GZIP_HEADER_BYTES` is exactly the test for the GZIP magic number. */
  lemma GzipSniff(rest: seq<u8>)
    ensures SignedBytes(Peek(rest)) == GzipHeaderBytes <==> IsGzip(rest)
  {
    assert GzipHeaderBytes == [31, -117];
    var header := Peek(rest);
    if |header| == 2 {
      assert SignedBytes(header) == [ToI8(header[0]), ToI8(header[1])];
      assert ToI8(header[0]) == 31 <==> header[0] == 0x1F;
      assert ToI8(header[1]) == -117 <==> header[1] == 0x8B;
    }
  }

  /** The stream `readRootCompound` goes on reading: inflated when it starts with the GZIP magic number, as it is otherwise. */
  function Unzipped(rest: seq<u8>, inflate: seq<u8> -> seq<u8>): seq<u8>
  {
    if IsGzip(rest) then inflate(rest) else rest
  }

  /**
   * A stream written by `writeRootCompound` starts with the COMPOUND or END
   * tag, so it is never taken for a GZIP stream, and reading its root back
   * gives the compound that was written.
   */
  lemma WrittenRootIsNotGzip(c: Nbt, rootName: Option<string>, order: KeyOrder, inflate: seq<u8> -> seq<u8>)
    requires c.Compound? && ValidOrder(order) && WellFormed(c) && CodecLaws.Encodable(c)
    requires rootName.Some? ==> CodecLaws.ShortAscii(rootName.value)
    ensures var written := RootBytes(Some(c), rootName, order).bytes;
      !IsGzip(written) && Unzipped(written, inflate) == written
      && ReadRoot(Unzipped(written, inflate), rootName.Some?) == Success(Read(Canon(c), |written|))
  {
    CodecLaws.RootLayout(c, rootName, order);
    CodecLaws.RootRoundTrip(c, rootName, order);
    var written := RootBytes(Some(c), rootName, order).bytes;
    assert written[0] == TagBytes(COMPOUND)[0] == 10;
  }

  /** Narrowing to `n` bytes keeps the `n`-byte pattern. */
  lemma NarrowedPattern(x: int, n: nat)
    requires n >= 1
    ensures Signed(x, n) % Pow256(n) == x % Pow256(n)
  {
    var m := Pow256(n);
    DivMod(x, m);
    if x % m >= m / 2 {
      DivModUnique(x % m - m, m, -1, x % m);
    } else {
      DivModUnique(x % m, m, 0, x % m);
    }
  }

  /** `read() << 8 | read()`: the first byte is the high one; a -1 in either sets every bit above its slot. */
  lemma PairIsFixed(data: seq<u8>, p: nat, a: int, b: int, x: int)
    requires p <= |data| && a == ByteAt(data, p) && b == ByteAt(data, After(data, p))
    requires x == if b == -1 then -1 else (if a == -1 then -256 else a * 256) + b
    ensures ReadFixed(data, p, 2) == Read(x, After(data, After(data, p)))
  {
    var acc := if a == -1 then -256 else a * 256;
    assert Accumulate(data, p, 2, 0) == Accumulate(data, After(data, p), 1, acc);
    assert Accumulate(data, After(data, p), 1, acc) == Accumulate(data, After(data, After(data, p)), 0, x);
  }

  /** The last `n` reads of a fixed-width value, onto the bits `acc` already assembled. */
  function Rest(data: seq<u8>, p: nat, n: nat, acc: int): Read<int>
  {
    Read(Accumulate(data, p, n, acc), if p + n <= |data| then p + n else |data|)
  }

  /** One `value |= read() << 8*(n-1)` step of `readInt()` or `readLong()`. */
  lemma RestStep(data: seq<u8>, p: nat, n: nat, acc: int)
    requires p <= |data| && n > 0
    ensures var b := ByteAt(data, p);
      Rest(data, p, n, acc) == Rest(data, After(data, p), n - 1, if b == -1 then -Pow256(n - 1) else acc + b * Pow256(n - 1))
  {
  }

  /** The values read so far, in front of those still to be read. */
  function Joined<T>(done: seq<T>, r: Read<seq<T>>): Read<seq<T>>
  {
    Read(done + r.value, r.next)
  }

  /** A list's first element in front of the elements after it, or the exception that stopped them. */
  function Cons(x: Nbt, r: Result<Read<seq<Nbt>>, Thrown>): Result<Read<seq<Nbt>>, Thrown>
  {
    if r.Success? then Success(Read([x] + r.value.value, r.value.next)) else r
  }

  /** One element of a list read: a failure ends the read, a success goes in front of the rest. */
  lemma ElementsCons(data: seq<u8>, start: nat, t: Tag, k: nat, q: nat, x: Result<Nbt, Thrown>, q': nat)
    requires start < q <= |data| && k > 0 && Outcome(x, q') == ReadPayload(data, q, t)
    ensures x.Failure? ==> ReadElements(data, start, t, k, q) == Failure(x.error)
    ensures x.Success? ==> start < q' <= |data| && ReadElements(data, start, t, k, q) == Cons(x.value, ReadElements(data, start, t, k - 1, q'))
  {
  }

  /** One more int of an int array read, joined to the ints already read. */
  lemma IntsStep(data: seq<u8>, p: nat, k: nat, done: seq<i32>, x: i32, p': nat)
    requires p <= |data| && k > 0 && Read(Int(x), p') == Codec.ReadInt(data, p)
    ensures p' <= |data|
    ensures Joined(done, ReadInts(data, p, k)) == Joined(done + [x], ReadInts(data, p', k - 1))
  {
    assert done + ([x] + ReadInts(data, p', k - 1).value) == done + [x] + ReadInts(data, p', k - 1).value;
  }

  /** One more long of a long array read, joined to the longs already read. */
  lemma LongsStep(data: seq<u8>, p: nat, k: nat, done: seq<i64>, x: i64, p': nat)
    requires p <= |data| && k > 0 && Read(Long(x), p') == Codec.ReadLong(data, p)
    ensures p' <= |data|
    ensures Joined(done, ReadLongs(data, p, k)) == Joined(done + [x], ReadLongs(data, p', k - 1))
  {
    assert done + ([x] + ReadLongs(data, p', k - 1).value) == done + [x] + ReadLongs(data, p', k - 1).value;
  }

  /** `readIntArray()` once its count is known: the count is checked, then the ints follow it. */
  lemma IntArrayAfterCount(data: seq<u8>, p: nat, n: i32, q: nat)
    requires p <= |data| && Read(Int(n), q) == Codec.ReadInt(data, p)
    ensures q <= |data|
    ensures Codec.ReadIntArray(data, p)
      == if n < 0 then Failure(NegativeArraySize) else Success(Read(IntArray(ReadInts(data, q, n).value), ReadInts(data, q, n).next))
  {
  }

  /** `readLongArray()` once its count is known: the count is checked, then the longs follow it. */
  lemma LongArrayAfterCount(data: seq<u8>, p: nat, n: i32, q: nat)
    requires p <= |data| && Read(Int(n), q) == Codec.ReadInt(data, p)
    ensures q <= |data|
    ensures Codec.ReadLongArray(data, p)
      == if n < 0 then Failure(NegativeArraySize) else Success(Read(LongArray(ReadLongs(data, q, n).value), ReadLongs(data, q, n).next))
  {
  }

  /** A list of tag `t` holding the elements read, or the exception that stopped them. */
  function ListOf(t: Tag, r: Result<Read<seq<Nbt>>, Thrown>): Result<Read<Nbt>, Thrown>
  {
    if r.Success? then Success(Read(List(t, r.value.value), r.value.next)) else Failure(r.error)
  }

  /** `readList()` once its element tag and count are known: the elements follow the count. */
  lemma ListAfterCount(data: seq<u8>, p: nat, t: Tag, n: i32, q: nat)
    requires p < |data| && Codec.ReadTag(data, p) == Success(Read(t, p + 1))
    requires Read(Int(n), q) == Codec.ReadInt(data, p + 1)
    ensures p < q <= |data|
    ensures Codec.ReadList(data, p) == ListOf(t, ReadElements(data, p, t, if n < 0 then 0 else n, q))
  {
  }

  class NbtInputStream {
    /** The bytes of the underlying stream, and how many of them were consumed. */
    var data: seq<u8>
    var pos: nat

    ghost predicate Valid()
      reads this
    {
      pos <= |data|
    }

    constructor (data: seq<u8>)
      ensures Valid() && this.data == data && pos == 0
    {
      this.data := data;
      pos := 0;
    }

    /** `read()`: the next byte as 0..255, or -1 at the end of the stream, which does not move. */
    method ReadNext() returns (b: int)
      requires Valid()
      modifies this
      ensures Valid() && data == old(data)
      ensures b == ByteAt(data, old(pos)) && pos == After(data, old(pos))
    {
      if pos < |data| {
        b := data[pos];
        pos := pos + 1;
      } else {
        b := -1;
      }
    }

    /** `read() << Byte.SIZE | read()`, shared by `readShort` and `readString`. */
    method ReadPair() returns (x: int)
      requires Valid()
      modifies this
      ensures Valid() && data == old(data)
      ensures Read(x, pos) == ReadFixed(data, old(pos), 2)
    {
      var a := ReadNext();
      var b := ReadNext();
      x := if b == -1 then -1 else (if a == -1 then -256 else a * 256) + b;
      PairIsFixed(data, old(pos), a, b, x);
    }

    /** `readNBytes(len)`: a negative length throws; otherwise up to `len` bytes, fewer at the end of the stream. */
    method ReadNBytes(len: int) returns (r: Result<seq<u8>, Thrown>)
      requires Valid()
      modifies this
      ensures Valid() && data == old(data)
      ensures Outcome(r, pos) == Codec.ReadNBytes(data, old(pos), len)
      ensures r.Failure? ==> pos == old(pos)
    {
      if len < 0 {
        return Failure(IllegalArgument);
      }
      var q := if pos + len <= |data| then pos + len else |data|;
      CodecLaws.BytesAreSlice(data, pos, q);
      r := Success(data[pos..q]);
      pos := q;
    }

    /** `readTag()`: `Tag.values()[read()]`, which throws for -1 and for ids above 12. */
    method ReadTag() returns (r: Result<Tag, Thrown>)
      requires Valid()
      modifies this
      ensures Valid() && data == old(data) && pos == After(data, old(pos))
      ensures Outcome(r, pos) == Codec.ReadTag(data, old(pos))
    {
      var b := ReadNext();
      var t := FromId(b);
      if t.None? {
        r := Failure(IndexOutOfBounds);
      } else {
        r := Success(t.value);
      }
    }

    /** `readByte()`: `new NBTByte(read())`, so the end of the stream gives -1. */
    method ReadByte() returns (v: Nbt)
      requires Valid()
      modifies this
      ensures Valid() && data == old(data)
      ensures Read(v, pos) == Codec.ReadByte(data, old(pos))
    {
      var b := ReadNext();
      v := Byte(ToI8(b));
    }

    /** `readShort()` */
    method ReadShort() returns (v: Nbt)
      requires Valid()
      modifies this
      ensures Valid() && data == old(data)
      ensures Read(v, pos) == Codec.ReadShort(data, old(pos))
    {
      var x := ReadPair();
      v := Short(ToI16(x));
    }

    /**
     * The loop of `readInt()` and `readLong()`: `value |= read() << 8*i` for i
     * from `width - 1` down to 0.
     */
    method ReadBigEndian(width: nat) returns (value: int)
      requires Valid()
      modifies this
      ensures Valid() && data == old(data)
      ensures Read(value, pos) == ReadFixed(data, old(pos), width)
    {
      value := 0;
      var i := width;
      while i > 0
        invariant 0 <= i <= width && Valid() && data == old(data)
        invariant Rest(data, pos, i, value) == ReadFixed(data, old(pos), width)
      {
        RestStep(data, pos, i, value);
        var b := ReadNext();
        value := if b == -1 then -Pow256(i - 1) else value + b * Pow256(i - 1);
        i := i - 1;
      }
    }

    /** `readInt()`: four bytes, most significant first. */
    method ReadInt() returns (v: Nbt)
      requires Valid()
      modifies this
      ensures Valid() && data == old(data)
      ensures Read(v, pos) == Codec.ReadInt(data, old(pos))
    {
      var value := ReadBigEndian(4);
      v := Int(ToI32(value));
    }

    /** `readLong()`: eight bytes, most significant first. */
    method ReadLong() returns (v: Nbt)
      requires Valid()
      modifies this
      ensures Valid() && data == old(data)
      ensures Read(v, pos) == Codec.ReadLong(data, old(pos))
    {
      var value := ReadBigEndian(8);
      v := Long(ToI64(value));
    }

    /** `readFloat()`: the bits of `readInt()`. */
    method ReadFloat() returns (v: Nbt)
      requires Valid()
      modifies this
      ensures Valid() && data == old(data)
      ensures Read(v, pos) == Codec.ReadFloat(data, old(pos))
    {
      var x := ReadInt();
      NarrowedPattern(ReadFixed(data, old(pos), 4).value, 4);
      v := Float(x.intValue % 0x1_0000_0000);
    }

    /** `readDouble()`: the bits of `readLong()`. */
    method ReadDouble() returns (v: Nbt)
      requires Valid()
      modifies this
      ensures Valid() && data == old(data)
      ensures Read(v, pos) == Codec.ReadDouble(data, old(pos))
    {
      var x := ReadLong();
      NarrowedPattern(ReadFixed(data, old(pos), 8).value, 8);
      v := Double(x.longValue % 0x1_0000_0000_0000_0000);
    }

    /** `readString()`: a signed short length, then that many bytes decoded as UTF-8. */
    method ReadString() returns (r: Result<string, Thrown>)
      requires Valid()
      modifies this
      ensures Valid() && data == old(data)
      ensures Outcome(r, pos) == Codec.ReadString(data, old(pos))
    {
      var length := ReadPair();
      var bytes := ReadNBytes(ToI16(length));
      if bytes.Failure? {
        return Failure(bytes.error);
      }
      r := Success(Utf.Decode(bytes.value));
    }

    /** `readByteArray()`: `readNBytes(readInt())`. */
    method ReadByteArray() returns (r: Result<Nbt, Thrown>)
      requires Valid()
      modifies this
      ensures Valid() && data == old(data)
      ensures Outcome(r, pos) == Codec.ReadByteArray(data, old(pos))
    {
      var length := ReadInt();
      var bytes := ReadNBytes(length.intValue);
      if bytes.Failure? {
        return Failure(bytes.error);
      }
      r := Success(ByteArray(SignedBytes(bytes.value)));
    }

    /** `readIntArray()`: `new int[readInt()]`, which throws for a negative count, then one `readInt()` per slot. */
    method ReadIntArray() returns (r: Result<Nbt, Thrown>)
      requires Valid()
      modifies this
      ensures Valid() && data == old(data)
      ensures Outcome(r, pos) == Codec.ReadIntArray(data, old(pos))
    {
      var length := ReadInt();
      var n := length.intValue;
      IntArrayAfterCount(data, old(pos), n, pos);
      if n < 0 {
        return Failure(NegativeArraySize);
      }
      ghost var q := pos;
      var values: seq<i32> := [];
      assert values + ReadInts(data, pos, n).value == ReadInts(data, pos, n).value;
      var i := 0;
      while i < n
        invariant 0 <= i <= n && |values| == i && Valid() && data == old(data) && q <= pos
        invariant Joined(values, ReadInts(data, pos, n - i)) == ReadInts(data, q, n)
      {
        ghost var p := pos;
        var x := ReadInt();
        IntsStep(data, p, n - i, values, x.intValue, pos);
        values := values + [x.intValue];
        i := i + 1;
      }
      assert values + [] == values;
      r := Success(IntArray(values));
    }

    /** `readLongArray()`: `new long[readInt()]`, which throws for a negative count, then one `readLong()` per slot. */
    method ReadLongArray() returns (r: Result<Nbt, Thrown>)
      requires Valid()
      modifies this
      ensures Valid() && data == old(data)
      ensures Outcome(r, pos) == Codec.ReadLongArray(data, old(pos))
    {
      var length := ReadInt();
      var n := length.intValue;
      LongArrayAfterCount(data, old(pos), n, pos);
      if n < 0 {
        return Failure(NegativeArraySize);
      }
      ghost var q := pos;
      var values: seq<i64> := [];
      assert values + ReadLongs(data, pos, n).value == ReadLongs(data, pos, n).value;
      var i := 0;
      while i < n
        invariant 0 <= i <= n && |values| == i && Valid() && data == old(data) && q <= pos
        invariant Joined(values, ReadLongs(data, pos, n - i)) == ReadLongs(data, q, n)
      {
        ghost var p := pos;
        var x := ReadLong();
        LongsStep(data, p, n - i, values, x.longValue, pos);
        values := values + [x.longValue];
        i := i + 1;
      }
      assert values + [] == values;
      r := Success(LongArray(values));
    }

    /** `readNBT(tag)`: `tag.read(this)`, the reader registered for each tag; END's throws. */
    method ReadPayload(t: Tag) returns (r: Result<Nbt, Thrown>)
      requires Valid()
      modifies this
      ensures Valid() && data == old(data)
      ensures Outcome(r, pos) == Codec.ReadPayload(data, old(pos), t)
      decreases |data| - pos, 2
    {
      match t
      case END => r := Failure(UnsupportedOperation);
      case BYTE => var v := ReadByte(); r := Success(v);
      case SHORT => var v := ReadShort(); r := Success(v);
      case INT => var v := ReadInt(); r := Success(v);
      case LONG => var v := ReadLong(); r := Success(v);
      case FLOAT => var v := ReadFloat(); r := Success(v);
      case DOUBLE => var v := ReadDouble(); r := Success(v);
      case BYTE_ARRAY => r := ReadByteArray();
      case STRING =>
        var s := ReadString();
        r := if s.Success? then Success(Str(s.value)) else Failure(s.error);
      case LIST => r := ReadList();
      case COMPOUND => r := ReadCompound();
      case INT_ARRAY => r := ReadIntArray();
      case LONG_ARRAY => r := ReadLongArray();
    }

    /** `readList()`: the element tag, the count, then `count` payloads of that tag; a count below one reads none. */
    method ReadList() returns (r: Result<Nbt, Thrown>)
      requires Valid()
      modifies this
      ensures Valid() && data == old(data)
      ensures Outcome(r, pos) == Codec.ReadList(data, old(pos))
      decreases |data| - pos, 1
    {
      var t := ReadTag();
      if t.Failure? {
        return Failure(t.error);
      }
      var length := ReadInt();
      var n := length.intValue;
      ListAfterCount(data, old(pos), t.value, n, pos);
      var items := ReadItems(t.value, n, old(pos));
      r := if items.Success? then Success(List(t.value, items.value)) else Failure(items.error);
    }

    /**
     * The loop of `readList()`: `list.add(readNBT(elementType))` for each of
     * the `n` elements, written as recursion on the elements still to read.
     */
    method ReadItems(t: Tag, n: i32, ghost start: nat) returns (r: Result<seq<Nbt>, Thrown>)
      requires Valid() && start < pos
      modifies this
      ensures Valid() && data == old(data)
      ensures Outcome(r, pos) == ReadElements(data, start, t, if n < 0 then 0 else n, old(pos))
      decreases |data| - start, 0, if n < 0 then 0 else n
    {
      if n <= 0 {
        return Success([]);
      }
      ghost var q := pos;
      var x := ReadPayload(t);
      ElementsCons(data, start, t, n, q, x, pos);
      if x.Failure? {
        return Failure(x.error);
      }
      var rest := ReadItems(t, n - 1, start);
      r := if rest.Success? then Success([x.value] + rest.value) else rest;
    }

    /** `readCompound()`: (tag, name, payload) entries until the END tag; a repeated name keeps the last value. */
    method ReadCompound() returns (r: Result<Nbt, Thrown>)
      requires Valid()
      modifies this
      ensures Valid() && data == old(data)
      ensures Outcome(r, pos) == Codec.ReadCompound(data, old(pos))
      decreases |data| - pos, 1
    {
      var compound: map<string, Nbt> := map[];
      while true
        invariant Valid() && data == old(data) && old(pos) <= pos
        invariant Codec.ReadEntries(data, pos, compound) == Codec.ReadEntries(data, old(pos), map[])
        decreases |data| - pos
      {
        var tag := ReadTag();
        if tag.Failure? {
          return Failure(tag.error);
        }
        if tag.value == END {
          return Success(Compound(compound));
        }
        var key := ReadString();
        if key.Failure? {
          return Failure(key.error);
        }
        var value := ReadPayload(tag.value);
        if value.Failure? {
          return Failure(value.error);
        }
        compound := compound[key.value := value.value];
      }
    }

    /**
     * `unzipIfNecessary()`: peek at the next two bytes and push them back;
     * when they are the GZIP magic number the rest of the stream is read
     * through `inflate`, otherwise it is read as it is.
     */
    method UnzipIfNecessary(inflate: seq<u8> -> seq<u8>) returns (gzip: bool)
      requires Valid()
      modifies this
      ensures Valid() && pos == 0
      ensures gzip <==> IsGzip(old(data)[old(pos)..])
      ensures data == Unzipped(old(data)[old(pos)..], inflate)
    {
      var rest := data[pos..];
      var header := Peek(rest);
      gzip := SignedBytes(header) == GzipHeaderBytes;
      GzipSniff(rest);
      data := if gzip then inflate(rest) else rest;
      pos := 0;
    }

    /**
     * `readRootCompound(hasRootName)`: after the GZIP check, the first tag
     * must be COMPOUND, the root name is read and dropped when present, then
     * the compound's payload. Nothing after it is looked at.
     */
    method ReadRootCompound(hasRootName: bool, inflate: seq<u8> -> seq<u8>) returns (r: Result<Nbt, Thrown>)
      requires Valid()
      modifies this
      ensures Valid() && data == Unzipped(old(data)[old(pos)..], inflate)
      ensures Outcome(r, pos) == ReadRoot(data, hasRootName)
    {
      var _ := UnzipIfNecessary(inflate);
      var tag := ReadTag();
      if tag.Failure? {
        return Failure(tag.error);
      }
      if tag.value != COMPOUND {
        return Failure(NBTException);
      }
      if hasRootName {
        var name := ReadString();
        if name.Failure? {
          return Failure(name.error);
        }
      }
      r := ReadCompound();
    }

    /** `readRootCompound()`: a root name is expected. */
    method ReadNamedRoot(inflate: seq<u8> -> seq<u8>) returns (r: Result<Nbt, Thrown>)
      requires Valid()
      modifies this
      ensures Valid() && data == Unzipped(old(data)[old(pos)..], inflate)
      ensures Outcome(r, pos) == ReadRoot(data, true)
    {
      r := ReadRootCompound(true, inflate);
    }
  }
}
