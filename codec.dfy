/**
 * The binary NBT layout as `NBTOutputStream` writes it and `NBTInputStream`
 * reads it, as functions over byte sequences. The stream classes are proved
 * against these functions; the properties of the format are proved here.
 */
module Codec {
  import opened Wrappers
  import opened JavaInts
  import opened Tags
  import opened Values
  import Utf

  // ===== writing =====

  /** The iteration order of a compound's HashMap: any enumeration of its keys. */
  type KeyOrder = map<string, Nbt> -> seq<string>

  /** `ks` lists every key of `m` exactly once. */
  predicate Enumerates(ks: seq<string>, m: map<string, Nbt>)
  {
    (forall k :: k in m ==> k in ks)
    && (forall i :: 0 <= i < |ks| ==> ks[i] in m)
    && (forall i, j :: 0 <= i < j < |ks| ==> ks[i] != ks[j])
  }

  ghost predicate ValidOrder(order: KeyOrder)
  {
    forall m {:trigger Enumerates(order(m), m)} :: Enumerates(order(m), m)
  }

  /** What a sequence of writes leaves behind: the bytes written, and the exception that stopped it, if any. */
  datatype Written = Written(bytes: seq<u8>, error: Option<Thrown>)

  /** `a` then `b`: an exception in `a` skips `b`. */
  function Then(a: Written, b: Written): (w: Written)
    ensures a.error.Some? ==> w == a
    ensures a.error.None? ==> w.bytes == a.bytes + b.bytes && w.error == b.error
  {
    if a.error.Some? then a else Written(a.bytes + b.bytes, b.error)
  }

  function Ok(bs: seq<u8>): Written
  {
    Written(bs, None)
  }

  /** `writeTag(tag)`: the tag's id as one byte. */
  function TagBytes(t: Tag): (bs: seq<u8>)
    ensures |bs| == 1 && bs[0] == Id(t)
  {
    [Id(t)]
  }

  /** `write(int)` of a byte value: the low 8 bits. */
  function ByteBytes(b: i8): (bs: seq<u8>)
    ensures |bs| == 1 && Signed(bs[0], 1) == b
  {
    SignedOfPattern(b, 1);
    [b % 0x100]
  }

  /** `writeInt(x)`: four bytes, most significant first. */
  function IntBytes(x: int): (bs: seq<u8>)
    ensures |bs| == 4
  {
    ToBytes(x, 4)
  }

  /** `writeString(value)`: the UTF-16 length cast to short, then (when positive) the UTF-8 bytes; null writes a zero length only. */
  function StringBytes(s: Option<string>): seq<u8>
  {
    var length := if s.None? then 0 else Utf.Utf16Length(s.value);
    ToBytes(ToI16(length), 2) + (if length < 1 then [] else Utf.Encode(s.value))
  }

  /** The element bytes of `write(byte[])`. */
  function RawBytes(bs: seq<i8>): (r: seq<u8>)
    ensures |r| == |bs|
  {
    if bs == [] then [] else ByteBytes(bs[0]) + RawBytes(bs[1..])
  }

  /** The element bytes of `writeIntArray`: each int in four bytes. */
  function IntsBytes(xs: seq<i32>): (r: seq<u8>)
    ensures |r| == 4 * |xs|
  {
    if xs == [] then [] else ToBytes(xs[0], 4) + IntsBytes(xs[1..])
  }

  /** The element bytes of `writeLongArray`: each long in eight bytes. */
  function LongsBytes(xs: seq<i64>): (r: seq<u8>)
    ensures |r| == 8 * |xs|
  {
    if xs == [] then [] else ToBytes(xs[0], 8) + LongsBytes(xs[1..])
  }

  /** `nbt.write(stream)`: the payload of one value, dispatched on its tag's writer. */
  function Payload(v: Nbt, order: KeyOrder): Written
    requires ValidOrder(order)
    decreases v, 2, 0
  {
    match v
    case List(_, _) => ListPayload(v, order)
    case Compound(_) => CompoundPayload(v, order)
    case _ => Ok(LeafBytes(v))
  }

  /** The payload of a value that holds no other values; none of these writers throws. */
  function LeafBytes(v: Nbt): seq<u8>
    requires !v.List? && !v.Compound?
  {
    match v
    case End => TagBytes(END)
    case Byte(b) => ByteBytes(b)
    case Short(x) => ToBytes(x, 2)
    case Int(x) => ToBytes(x, 4)
    case Long(x) => ToBytes(x, 8)
    case Float(bits) => ToBytes(bits, 4)
    case Double(bits) => ToBytes(bits, 8)
    case ByteArray(bs) => IntBytes(|bs|) + RawBytes(bs)
    case Str(s) => StringBytes(Some(s))
    case IntArray(xs) => IntBytes(|xs|) + IntsBytes(xs)
    case LongArray(xs) => IntBytes(|xs|) + LongsBytes(xs)
  }

  /**
   * `writeList(list)`: the elements are first re-inserted into a fresh list, which
   * throws when they are not homogeneous; then the element tag that list ends
   * with, the count, and each element's payload.
   */
  function ListPayload(v: Nbt, order: KeyOrder): Written
    requires v.List? && ValidOrder(order)
    decreases v, 1, 0
  {
    var t := AdmitAll(END, v.items);
    if t.Failure? then Written([], Some(t.error))
    else Then(Ok(TagBytes(t.value) + IntBytes(|v.items|)), ElementsFrom(v, order, 0))
  }

  /** The payloads of the list elements from index `i` on. */
  function ElementsFrom(v: Nbt, order: KeyOrder, i: nat): Written
    requires v.List? && ValidOrder(order) && i <= |v.items|
    decreases v, 0, |v.items| - i
  {
    if i == |v.items| then Ok([])
    else Then(Payload(v.items[i], order), ElementsFrom(v, order, i + 1))
  }

  /**
   * `writeCompound(map)`: converting the map to a fresh compound throws when a
   * value is End; then one (tag, name, payload) per entry in iteration order,
   * then the END byte.
   */
  function CompoundPayload(v: Nbt, order: KeyOrder): Written
    requires v.Compound? && ValidOrder(order)
    decreases v, 1, 0
  {
    if exists k :: k in v.entries && v.entries[k] == End then Written([], Some(NBTException))
    else Then(EntriesFrom(v, order, 0), Ok(TagBytes(END)))
  }

  /** The entries from position `i` of the iteration order on. */
  function EntriesFrom(v: Nbt, order: KeyOrder, i: nat): Written
    requires v.Compound? && ValidOrder(order) && i <= |order(v.entries)|
    decreases v, 0, |order(v.entries)| - i
  {
    var ks := order(v.entries);
    if i == |ks| then Ok([])
    else
      assert Enumerates(ks, v.entries);
      var k := ks[i];
      Then(Then(Ok(TagBytes(TagOf(v.entries[k])) + StringBytes(Some(k))), Payload(v.entries[k], order)),
           EntriesFrom(v, order, i + 1))
  }

  /**
   * `writeRootCompound(compound, rootName)`: a null compound writes END alone;
   * otherwise the COMPOUND tag, the name only when it is non-null, then the payload.
   */
  function RootBytes(c: Option<Nbt>, rootName: Option<string>, order: KeyOrder): Written
    requires ValidOrder(order) && (c.Some? ==> c.value.Compound?)
  {
    if c.None? then Ok(TagBytes(END))
    else
      Then(Ok(TagBytes(COMPOUND) + (if rootName.Some? then StringBytes(rootName) else [])), Payload(c.value, order))
  }

  // ===== reading =====

  /** A value read and the position just after it. */
  datatype Read<T> = Read(value: T, next: nat)

  /** `read()`: the next byte, or -1 at the end of the stream. */
  function ByteAt(data: seq<u8>, p: nat): (b: int)
    ensures -1 <= b < 0x100
    ensures b == -1 <==> p >= |data|
  {
    if p < |data| then data[p] else -1
  }

  /** The position after one `read()`: the end of the stream does not move. */
  function After(data: seq<u8>, p: nat): nat
  {
    if p < |data| then p + 1 else p
  }

  /**
   * `value |= read() << 8*i` for i = n-1 down to 0: a byte lands in its own
   * 8-bit slot, and a -1 sets every bit from its slot upwards.
   */
  function Accumulate(data: seq<u8>, p: nat, n: nat, acc: int): int
    decreases n
  {
    if n == 0 then acc
    else
      var b := ByteAt(data, p);
      Accumulate(data, After(data, p), n - 1, if b == -1 then -Pow256(n - 1) else acc + b * Pow256(n - 1))
  }

  /** `n` reads assembled most significant first, and the position after them. */
  function ReadFixed(data: seq<u8>, p: nat, n: nat): (r: Read<int>)
    requires p <= |data|
    ensures r.next == if p + n <= |data| then p + n else |data|
  {
    Read(Accumulate(data, p, n, 0), if p + n <= |data| then p + n else |data|)
  }

  /** `readTag()`: `Tag.values()[read()]`, which throws for -1 and for ids above 12. */
  function ReadTag(data: seq<u8>, p: nat): (r: Result<Read<Tag>, Thrown>)
    requires p <= |data|
    ensures r.Success? <==> p < |data| && data[p] < |AllTags|
    ensures r.Success? ==> Id(r.value.value) == data[p] && r.value.next == p + 1
    ensures r.Failure? ==> r.error == IndexOutOfBounds
  {
    var t := FromId(ByteAt(data, p));
    if t.None? then Failure(IndexOutOfBounds) else Success(Read(t.value, p + 1))
  }

  /** `readNBytes(len)`: a negative length throws; otherwise up to `len` bytes, fewer at the end of the stream. */
  function ReadNBytes(data: seq<u8>, p: nat, len: int): (r: Result<Read<seq<u8>>, Thrown>)
    requires p <= |data|
    ensures r.Success? <==> len >= 0
    ensures r.Failure? ==> r.error == IllegalArgument
    ensures r.Success? ==> p <= r.value.next <= |data| && |r.value.value| == r.value.next - p
    ensures r.Success? ==> r.value.next == if p + len <= |data| then p + len else |data|
  {
    if len < 0 then Failure(IllegalArgument)
    else
      var q := if p + len <= |data| then p + len else |data|;
      Success(Read(Bytes(data, p, q), q))
  }

  /** The bytes from position `p` up to `q`, in order. */
  function Bytes(data: seq<u8>, p: nat, q: nat): (r: seq<u8>)
    requires p <= q <= |data|
    ensures |r| == q - p
    decreases q - p
  {
    if p == q then [] else [data[p]] + Bytes(data, p + 1, q)
  }

  /** `readString()`: the length prefix is read as a signed short, then that many bytes are decoded as UTF-8. */
  function ReadString(data: seq<u8>, p: nat): (r: Result<Read<string>, Thrown>)
    requires p <= |data|
    ensures r.Success? ==> p <= r.value.next <= |data|
  {
    var length := ReadFixed(data, p, 2);
    var bytes :- ReadNBytes(data, length.next, ToI16(length.value));
    Success(Read(Utf.Decode(bytes.value), bytes.next))
  }

  /** `readInt()` repeated `k` times. */
  function ReadInts(data: seq<u8>, p: nat, k: nat): (r: Read<seq<i32>>)
    requires p <= |data|
    ensures |r.value| == k && p <= r.next <= |data|
    decreases k
  {
    if k == 0 then Read([], p)
    else
      var x := ReadFixed(data, p, 4);
      var rest := ReadInts(data, x.next, k - 1);
      Read([ToI32(x.value)] + rest.value, rest.next)
  }

  /** `readLong()` repeated `k` times. */
  function ReadLongs(data: seq<u8>, p: nat, k: nat): (r: Read<seq<i64>>)
    requires p <= |data|
    ensures |r.value| == k && p <= r.next <= |data|
    decreases k
  {
    if k == 0 then Read([], p)
    else
      var x := ReadFixed(data, p, 8);
      var rest := ReadLongs(data, x.next, k - 1);
      Read([ToI64(x.value)] + rest.value, rest.next)
  }

  /** `tag.read(stream)`: the payload reader registered for each tag. */
  function ReadPayload(data: seq<u8>, p: nat, t: Tag): (r: Result<Read<Nbt>, Thrown>)
    requires p <= |data|
    ensures r.Success? ==> p <= r.value.next <= |data| && TagOf(r.value.value) == t
    decreases |data| - p, 2, 0
  {
    if t == LIST then ReadList(data, p)
    else if t == COMPOUND then ReadCompound(data, p)
    else ReadLeaf(data, p, t)
  }

  /** The readers of the tags that hold no other values; END's always throws. */
  function ReadLeaf(data: seq<u8>, p: nat, t: Tag): (r: Result<Read<Nbt>, Thrown>)
    requires p <= |data| && t != LIST && t != COMPOUND
    ensures r.Success? ==> p <= r.value.next <= |data| && TagOf(r.value.value) == t
  {
    match t
    case END => Failure(UnsupportedOperation)
    case BYTE => Success(ReadByte(data, p))
    case SHORT => Success(ReadShort(data, p))
    case INT => Success(ReadInt(data, p))
    case LONG => Success(ReadLong(data, p))
    case FLOAT => Success(ReadFloat(data, p))
    case DOUBLE => Success(ReadDouble(data, p))
    case BYTE_ARRAY => ReadByteArray(data, p)
    case STRING => ReadStr(data, p)
    case INT_ARRAY => ReadIntArray(data, p)
    case LONG_ARRAY => ReadLongArray(data, p)
  }

  /** `readByte()`: `new NBTByte(read())`, so the end of the stream gives -1. */
  function ReadByte(data: seq<u8>, p: nat): (r: Read<Nbt>)
    requires p <= |data|
    ensures p <= r.next <= |data| && TagOf(r.value) == BYTE
  {
    Read(Byte(ToI8(ByteAt(data, p))), After(data, p))
  }

  /** `readShort()`: two reads, most significant first, narrowed to a short. */
  function ReadShort(data: seq<u8>, p: nat): (r: Read<Nbt>)
    requires p <= |data|
    ensures p <= r.next <= |data| && TagOf(r.value) == SHORT
  {
    var x := ReadFixed(data, p, 2);
    Read(Short(ToI16(x.value)), x.next)
  }

  /** `readInt()` */
  function ReadInt(data: seq<u8>, p: nat): (r: Read<Nbt>)
    requires p <= |data|
    ensures p <= r.next <= |data| && TagOf(r.value) == INT
  {
    var x := ReadFixed(data, p, 4);
    Read(Int(ToI32(x.value)), x.next)
  }

  /** `readLong()` */
  function ReadLong(data: seq<u8>, p: nat): (r: Read<Nbt>)
    requires p <= |data|
    ensures p <= r.next <= |data| && TagOf(r.value) == LONG
  {
    var x := ReadFixed(data, p, 8);
    Read(Long(ToI64(x.value)), x.next)
  }

  /** `readFloat()`: the bits of `readInt()`, kept as a raw pattern. */
  function ReadFloat(data: seq<u8>, p: nat): (r: Read<Nbt>)
    requires p <= |data|
    ensures p <= r.next <= |data| && TagOf(r.value) == FLOAT
  {
    var x := ReadFixed(data, p, 4);
    Read(Float(x.value % 0x1_0000_0000), x.next)
  }

  /** `readDouble()`: the bits of `readLong()`, kept as a raw pattern. */
  function ReadDouble(data: seq<u8>, p: nat): (r: Read<Nbt>)
    requires p <= |data|
    ensures p <= r.next <= |data| && TagOf(r.value) == DOUBLE
  {
    var x := ReadFixed(data, p, 8);
    Read(Double(x.value % 0x1_0000_0000_0000_0000), x.next)
  }

  /** The STRING tag's reader: `readString()` wrapped as a value. */
  function ReadStr(data: seq<u8>, p: nat): (r: Result<Read<Nbt>, Thrown>)
    requires p <= |data|
    ensures r.Success? ==> p <= r.value.next <= |data| && TagOf(r.value.value) == STRING
  {
    var s :- ReadString(data, p);
    Success(Read(Str(s.value), s.next))
  }

  /** `readByteArray()`: `readNBytes(readInt())`, which throws for a negative count and stops at the end of the stream. */
  function ReadByteArray(data: seq<u8>, p: nat): (r: Result<Read<Nbt>, Thrown>)
    requires p <= |data|
    ensures r.Success? ==> p <= r.value.next <= |data| && TagOf(r.value.value) == BYTE_ARRAY
  {
    var length := ReadFixed(data, p, 4);
    var bytes :- ReadNBytes(data, length.next, ToI32(length.value));
    Success(Read(ByteArray(SignedBytes(bytes.value)), bytes.next))
  }

  /** `readIntArray()`: `new int[readInt()]`, which throws for a negative count, filled by `readInt()`. */
  function ReadIntArray(data: seq<u8>, p: nat): (r: Result<Read<Nbt>, Thrown>)
    requires p <= |data|
    ensures r.Success? ==> p <= r.value.next <= |data| && TagOf(r.value.value) == INT_ARRAY
  {
    var length := ReadFixed(data, p, 4);
    var n := ToI32(length.value);
    if n < 0 then Failure(NegativeArraySize)
    else
      var xs := ReadInts(data, length.next, n);
      Success(Read(IntArray(xs.value), xs.next))
  }

  /** `readLongArray()`: `new long[readInt()]`, which throws for a negative count, filled by `readLong()`. */
  function ReadLongArray(data: seq<u8>, p: nat): (r: Result<Read<Nbt>, Thrown>)
    requires p <= |data|
    ensures r.Success? ==> p <= r.value.next <= |data| && TagOf(r.value.value) == LONG_ARRAY
  {
    var length := ReadFixed(data, p, 4);
    var n := ToI32(length.value);
    if n < 0 then Failure(NegativeArraySize)
    else
      var xs := ReadLongs(data, length.next, n);
      Success(Read(LongArray(xs.value), xs.next))
  }

  /** The bytes `readNBytes` returns, as Java's signed bytes. */
  function SignedBytes(bs: seq<u8>): (r: seq<i8>)
    ensures |r| == |bs|
  {
    if bs == [] then [] else [ToI8(bs[0])] + SignedBytes(bs[1..])
  }

  /**
   * `readList()`: the element tag and count, then `count` payloads of that tag
   * added to a list of that type; a count of zero or less gives an empty list.
   */
  function ReadList(data: seq<u8>, p: nat): (r: Result<Read<Nbt>, Thrown>)
    requires p <= |data|
    ensures r.Success? ==> p < r.value.next <= |data| && TagOf(r.value.value) == LIST
    decreases |data| - p, 1, 0
  {
    var t :- ReadTag(data, p);
    var length := ReadFixed(data, t.next, 4);
    var items :- ReadElements(data, p, t.value, if ToI32(length.value) < 0 then 0 else ToI32(length.value), length.next);
    Success(Read(List(t.value, items.value), items.next))
  }

  /** `k` more payloads of tag `t`, read from `q` on, for the list that starts at `start`. */
  function ReadElements(data: seq<u8>, start: nat, t: Tag, k: nat, q: nat): (r: Result<Read<seq<Nbt>>, Thrown>)
    requires start < q <= |data|
    ensures r.Success? ==> q <= r.value.next <= |data| && |r.value.value| == k
    ensures r.Success? ==> forall i :: 0 <= i < k ==> TagOf(r.value.value[i]) == t
    decreases |data| - start, 0, k
  {
    if k == 0 then Success(Read([], q))
    else
      var e :- ReadPayload(data, q, t);
      var rest :- ReadElements(data, start, t, k - 1, e.next);
      Success(Read([e.value] + rest.value, rest.next))
  }

  /** `readCompound()`: (tag, name, payload) entries until the END tag; a repeated name keeps the last value. */
  function ReadCompound(data: seq<u8>, p: nat): (r: Result<Read<Nbt>, Thrown>)
    requires p <= |data|
    ensures r.Success? ==> p < r.value.next <= |data| && TagOf(r.value.value) == COMPOUND
    decreases |data| - p, 1, 0
  {
    ReadEntries(data, p, map[])
  }

  /** The entries from `q` on, added to those already read. */
  function ReadEntries(data: seq<u8>, q: nat, acc: map<string, Nbt>): (r: Result<Read<Nbt>, Thrown>)
    requires q <= |data|
    ensures r.Success? ==> q < r.value.next <= |data| && TagOf(r.value.value) == COMPOUND
    decreases |data| - q, 0, 0
  {
    var t :- ReadTag(data, q);
    if t.value == END then Success(Read(Compound(acc), t.next))
    else
      var name :- ReadString(data, t.next);
      var value :- ReadPayload(data, name.next, t.value);
      ReadEntries(data, value.next, acc[name.value := value.value])
  }

  /** The two-byte GZIP magic number 1F 8B at the start of the stream. */
  predicate IsGzip(data: seq<u8>)
    ensures IsGzip(data) ==> |data| >= 2 && FromId(data[0] as int).None?
  {
    |data| >= 2 && data[0] == 0x1F && data[1] == 0x8B
  }

  /**
   * `readRootCompound(hasRootName)` on the (already decompressed) stream: the
   * first tag must be COMPOUND, the root name is skipped when present, then
   * the compound's payload.
   */
  function ReadRoot(data: seq<u8>, hasRootName: bool): (r: Result<Read<Nbt>, Thrown>)
    ensures r.Success? ==> r.value.value.Compound?
  {
    var t :- ReadTag(data, 0);
    if t.value != COMPOUND then Failure(NBTException)
    else
      if hasRootName then
        var name :- ReadString(data, t.next);
        ReadCompound(data, name.next)
      else ReadCompound(data, t.next)
  }
}
