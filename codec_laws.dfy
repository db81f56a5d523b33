/**
 * What the binary layout guarantees: each scalar reads back as written, a
 * read past the end of the stream yields -1 instead of failing, string length
 * prefixes count UTF-16 units rather than bytes, and a well-formed tree whose
 * strings are short ASCII text reads back as itself (with empty lists typed END).
 */
module CodecLaws {
  import opened Wrappers
  import opened JavaInts
  import opened Tags
  import opened Values
  import Utf
  import opened Codec

  /** A string `writeString` and `readString` agree on: ASCII, with a length that fits a signed short. */
  predicate ShortAscii(s: string)
  {
    Utf.IsAscii(s) && |s| < 0x8000
  }

  /** Every string value and every compound key of the tree is short ASCII text. */
  predicate Encodable(v: Nbt)
    decreases v
  {
    match v
    case Str(s) => ShortAscii(s)
    case List(_, xs) => forall i :: 0 <= i < |xs| ==> Encodable(xs[i])
    case Compound(m) => forall k :: k in m ==> ShortAscii(k) && Encodable(m[k])
    case _ => true
  }

  /** `data` holds `bs` at position `p`: copying `|bs|` bytes from there gives `bs`. */
  predicate At(data: seq<u8>, p: nat, bs: seq<u8>)
  {
    p + |bs| <= |data| && Bytes(data, p, p + |bs|) == bs
  }

  /** What `readNBytes` copies is the slice of the stream. */
  lemma {:induction false} BytesAreSlice(data: seq<u8>, p: nat, q: nat)
    requires p <= q <= |data|
    ensures Bytes(data, p, q) == data[p..q]
    decreases q - p
  {
    if p < q {
      BytesAreSlice(data, p + 1, q);
      assert data[p..q] == [data[p]] + data[p + 1..q];
    }
  }

  lemma {:induction false} AtSlice(data: seq<u8>, p: nat, bs: seq<u8>)
    ensures At(data, p, bs) <==> p + |bs| <= |data| && data[p..p + |bs|] == bs
  {
    if p + |bs| <= |data| {
      BytesAreSlice(data, p, p + |bs|);
    }
  }

  lemma {:induction false} SplitAt(data: seq<u8>, p: nat, a: seq<u8>, b: seq<u8>)
    requires At(data, p, a + b)
    ensures At(data, p, a) && At(data, p + |a|, b)
  {
    AtSlice(data, p, a + b);
    AtSlice(data, p, a);
    AtSlice(data, p + |a|, b);
    assert data[p..p + |a|] == (a + b)[..|a|];
    assert data[p + |a|..p + |a| + |b|] == (a + b)[|a|..];
  }

  // ----- fixed-width scalars -----

  /** Prepending a byte adds it in the highest position. */
  lemma {:induction false} FromBytesCons(b: u8, rest: seq<u8>)
    ensures FromBytes([b] + rest) == b * Pow256(|rest|) + FromBytes(rest)
    decreases |rest|
  {
    var whole := [b] + rest;
    if rest == [] {
      assert whole[..0] == [];
    } else {
      var init, last := rest[..|rest| - 1], rest[|rest| - 1];
      assert whole[..|whole| - 1] == [b] + init;
      var p, f := Pow256(|init|), FromBytes(init);
      assert FromBytes([b] + init) == b * p + f by {
        FromBytesCons(b, init);
      }
      assert FromBytes(whole) == (b * p + f) * 256 + last;
      assert FromBytes(rest) == f * 256 + last;
      assert Pow256(|rest|) == 256 * p;
      ScaledProduct(b, p, Pow256(|rest|));
    }
  }

  lemma {:induction false} ScaledProduct(b: int, p: int, q: int)
    requires q == 256 * p
    ensures b * q == 256 * (b * p)
  {
    MulAssoc(b, 256, p);
  }

  /** Reading bytes that are all there assembles their unsigned big-endian value. */
  lemma {:induction false} AccumulateComplete(data: seq<u8>, p: nat, n: nat, acc: int)
    requires p + n <= |data|
    ensures Accumulate(data, p, n, acc) == acc + FromBytes(data[p..p + n])
    decreases n
  {
    if n > 0 {
      AccumulateComplete(data, p + 1, n - 1, acc + data[p] * Pow256(n - 1));
      assert data[p..p + n] == [data[p]] + data[p + 1..p + n];
      FromBytesCons(data[p], data[p + 1..p + n]);
    }
  }

  /** A read of `n` bytes that runs past the end of the stream yields -1: `readShort`, `readInt` and `readLong` do not detect the end. */
  lemma {:induction false} AccumulateTruncated(data: seq<u8>, p: nat, n: nat, acc: int)
    requires p <= |data| < p + n
    ensures Accumulate(data, p, n, acc) == -1
    decreases n
  {
    var b := ByteAt(data, p);
    var acc' := if b == -1 then -Pow256(n - 1) else acc + b * Pow256(n - 1);
    if n > 1 {
      AccumulateTruncated(data, After(data, p), n - 1, acc');
    }
  }

  lemma {:induction false} TruncatedReadIsMinusOne(data: seq<u8>, p: nat, n: nat)
    requires p <= |data| < p + n
    ensures ReadFixed(data, p, n).value == -1
    ensures ReadFixed(data, p, n).next == |data|
  {
    AccumulateTruncated(data, p, n, 0);
  }

  /** A value written in `n` bytes reads back, once narrowed to `n` bytes, as itself. */
  lemma {:induction false} ReadFixedOfBytes(data: seq<u8>, p: nat, n: nat, x: int)
    requires n >= 1 && -Pow256(n) / 2 <= x < Pow256(n) / 2
    requires At(data, p, ToBytes(x, n))
    ensures Signed(ReadFixed(data, p, n).value, n) == x
    ensures ReadFixed(data, p, n).next == p + n
  {
    AtSlice(data, p, ToBytes(x, n));
    AccumulateComplete(data, p, n, 0);
    BytesRoundTrip(x, n);
  }

  /** A non-negative count below 2^31 reads back through `readInt`. */
  lemma {:induction false} ReadCount(data: seq<u8>, p: nat, n: nat)
    requires n <= MaxJavaLength
    requires At(data, p, IntBytes(n))
    ensures ToI32(ReadFixed(data, p, 4).value) == n
    ensures ReadFixed(data, p, 4).next == p + 4
  {
    ReadFixedOfBytes(data, p, 4, n);
  }

  /** Raw IEEE bit patterns of both widths read back unchanged. */
  lemma {:induction false} ReadBits(data: seq<u8>, p: nat, n: nat, bits: int)
    requires n == 4 || n == 8
    requires 0 <= bits < Pow256(n)
    requires At(data, p, ToBytes(bits, n))
    ensures ReadFixed(data, p, n).value == bits
    ensures ReadFixed(data, p, n).next == p + n
  {
    AtSlice(data, p, ToBytes(bits, n));
    AccumulateComplete(data, p, n, 0);
    FromToBytes(bits, n);
    DivModUnique(bits, Pow256(n), 0, bits);
  }

  // ----- strings -----

  /** A short ASCII string is read back as written, and the read consumes exactly its bytes. */
  lemma {:induction false} StringRoundTrip(data: seq<u8>, p: nat, s: string, n: nat)
    requires WellFormed(Str(s)) && Encodable(Str(s))
    requires At(data, p, StringBytes(Some(s))) && n == p + |StringBytes(Some(s))|
    ensures ReadString(data, p) == Success(Read(s, n))
  {
    Utf.AsciiLengths(s);
    var length := |s|;
    assert Utf.Utf16Length(s) == length;
    assert Signed(length % Pow256(2), 2) == length by {
      SignedOfPattern(length, 2);
    }
    assert ToI16(length) == length by {
      DivModUnique(length, Pow256(2), 0, length);
    }
    var body := if length < 1 then [] else Utf.Encode(s);
    SplitAt(data, p, ToBytes(length, 2), body);
    ReadFixedOfBytes(data, p, 2, length);
    if length < 1 {
      assert s == [];
    } else {
      Utf.DecodeEncode(s);
    }
  }

  /**
   * The length prefix counts UTF-16 units while the body is UTF-8: for text
   * with a character outside ASCII (and a prefix that stays positive) the
   * reader stops before the end of what was written.
   */
  lemma {:induction false} NonAsciiStringReadShort(s: string)
    requires !Utf.IsAscii(s) && Utf.Utf16Length(s) < 0x8000
    ensures var bs := StringBytes(Some(s));
      ReadString(bs, 0).Success? && ReadString(bs, 0).value.next < |bs|
  {
    var length := Utf.Utf16Length(s);
    Utf.NonAsciiLonger(s);
    assert ToI16(length) == length by {
      DivModUnique(length, Pow256(2), 0, length);
    }
    var bs := StringBytes(Some(s));
    AtSlice(bs, 0, bs);
    SplitAt(bs, 0, ToBytes(length, 2), Utf.Encode(s));
    ReadFixedOfBytes(bs, 0, 2, length);
  }

  /** A string of 0x8000 to 0xFFFF UTF-16 units gets a negative prefix, which the reader rejects. */
  lemma {:induction false} LongStringRejected(s: string)
    requires 0x8000 <= Utf.Utf16Length(s) < 0x1_0000
    ensures ReadString(StringBytes(Some(s)), 0) == Failure(IllegalArgument)
  {
    var length := Utf.Utf16Length(s);
    var bs := StringBytes(Some(s));
    var prefix := ToI16(length);
    assert prefix == length as int - 0x1_0000 by {
      DivModUnique(length, Pow256(2), 0, length);
    }
    Utf.NotLonger(s);
    AtSlice(bs, 0, bs);
    SplitAt(bs, 0, ToBytes(prefix, 2), Utf.Encode(s));
    ReadFixedOfBytes(bs, 0, 2, prefix);
  }

  /**
   * The string layout the format calls for: the UTF-8 byte count, not the
   * UTF-16 count, as the signed-short prefix, then the UTF-8 bytes.
   */
  function ByteCountStringBytes(s: string): (bs: seq<u8>)
    ensures |bs| == 2 + |Utf.Encode(s)|
  {
    ToBytes(|Utf.Encode(s)|, 2) + Utf.Encode(s)
  }

  /** With the byte-count prefix, every string of under 0x8000 UTF-8 bytes reads back, ASCII or not. */
  lemma {:induction false} ByteCountStringRoundTrip(data: seq<u8>, p: nat, s: string, n: nat)
    requires |Utf.Encode(s)| < 0x8000
    requires At(data, p, ByteCountStringBytes(s)) && n == p + |ByteCountStringBytes(s)|
    ensures ReadString(data, p) == Success(Read(s, n))
  {
    var body := Utf.Encode(s);
    var length := |body|;
    assert ToI16(length) == length by {
      DivModUnique(length, Pow256(2), 0, length);
    }
    SplitAt(data, p, ToBytes(length, 2), body);
    ReadFixedOfBytes(data, p, 2, length);
    Utf.DecodeEncode(s);
  }

  // ----- arrays -----

  lemma {:induction false} ReadIntsOf(data: seq<u8>, p: nat, xs: seq<i32>)
    requires At(data, p, IntsBytes(xs))
    ensures ReadInts(data, p, |xs|) == Read(xs, p + 4 * |xs|)
    decreases |xs|
  {
    if xs != [] {
      SplitAt(data, p, ToBytes(xs[0], 4), IntsBytes(xs[1..]));
      ReadFixedOfBytes(data, p, 4, xs[0]);
      ReadIntsOf(data, p + 4, xs[1..]);
      ReadIntsCons(data, p, xs);
    }
  }

  /** `readInt` of the first element, then the rest. */
  lemma {:induction false} ReadIntsCons(data: seq<u8>, p: nat, xs: seq<i32>)
    requires xs != [] && p + 4 <= |data|
    requires Signed(ReadFixed(data, p, 4).value, 4) == xs[0] && ReadFixed(data, p, 4).next == p + 4
    requires ReadInts(data, p + 4, |xs[1..]|) == Read(xs[1..], p + 4 + 4 * |xs[1..]|)
    ensures ReadInts(data, p, |xs|) == Read(xs, p + 4 * |xs|)
  {
    assert xs == [xs[0]] + xs[1..];
  }

  lemma {:induction false} ReadLongsOf(data: seq<u8>, p: nat, xs: seq<i64>)
    requires At(data, p, LongsBytes(xs))
    ensures ReadLongs(data, p, |xs|) == Read(xs, p + 8 * |xs|)
    decreases |xs|
  {
    if xs != [] {
      SplitAt(data, p, ToBytes(xs[0], 8), LongsBytes(xs[1..]));
      ReadFixedOfBytes(data, p, 8, xs[0]);
      ReadLongsOf(data, p + 8, xs[1..]);
      ReadLongsCons(data, p, xs);
    }
  }

  /** `readLong` of the first element, then the rest. */
  lemma {:induction false} ReadLongsCons(data: seq<u8>, p: nat, xs: seq<i64>)
    requires xs != [] && p + 8 <= |data|
    requires Signed(ReadFixed(data, p, 8).value, 8) == xs[0] && ReadFixed(data, p, 8).next == p + 8
    requires ReadLongs(data, p + 8, |xs[1..]|) == Read(xs[1..], p + 8 + 8 * |xs[1..]|)
    ensures ReadLongs(data, p, |xs|) == Read(xs, p + 8 * |xs|)
  {
    assert xs == [xs[0]] + xs[1..];
  }

  // ----- trees -----

  /** The canonical form of each element, in order. */
  function CanonAll(xs: seq<Nbt>): (r: seq<Nbt>)
    ensures |r| == |xs|
  {
    if xs == [] then [] else [Canon(xs[0])] + CanonAll(xs[1..])
  }

  lemma {:induction false} CanonAllAt(xs: seq<Nbt>)
    ensures CanonAll(xs) == seq(|xs|, i requires 0 <= i < |xs| => Canon(xs[i]))
  {
    if xs != [] {
      CanonAllAt(xs[1..]);
    }
  }

  lemma {:induction false} CanonAllStep(xs: seq<Nbt>, i: nat)
    requires i < |xs|
    ensures CanonAll(xs[i..]) == [Canon(xs[i])] + CanonAll(xs[i + 1..])
  {
    assert xs[i..][1..] == xs[i + 1..];
  }

  /*
   * The tree proofs state their facts through the names below rather than
   * through the recursive writer and reader functions themselves, so that each
   * proof step unfolds those functions only once.
   */

  /** The bytes `write` puts out for `v`. */
  function PayloadBytes(v: Nbt, order: KeyOrder): seq<u8>
    requires ValidOrder(order)
  {
    Payload(v, order).bytes
  }

  /** The bytes of the list elements from index `i` on. */
  function ElementBytes(v: Nbt, order: KeyOrder, i: nat): seq<u8>
    requires v.List? && ValidOrder(order) && i <= |v.items|
  {
    ElementsFrom(v, order, i).bytes
  }

  /** The bytes of the compound entries from position `i` of the iteration order on. */
  function EntryBytes(v: Nbt, order: KeyOrder, i: nat): seq<u8>
    requires v.Compound? && ValidOrder(order) && i <= |order(v.entries)|
  {
    EntriesFrom(v, order, i).bytes
  }

  /** Reading a payload of tag `t` at `p` gives `x` and stops at `n`. */
  predicate PayloadReads(data: seq<u8>, p: nat, t: Tag, x: Nbt, n: nat)
  {
    p <= |data| && ReadPayload(data, p, t) == Success(Read(x, n))
  }

  /** Reading `k` more elements of tag `t` from `q` gives `xs` and stops at `n`. */
  predicate ElementsRead(data: seq<u8>, start: nat, t: Tag, k: nat, q: nat, xs: seq<Nbt>, n: nat)
  {
    start < q <= |data| && ReadElements(data, start, t, k, q) == Success(Read(xs, n))
  }

  /** Reading entries from `q` on, on top of `acc`, completes the compound `x` and stops at `n`. */
  predicate EntriesRead(data: seq<u8>, q: nat, acc: map<string, Nbt>, x: Nbt, n: nat)
  {
    q <= |data| && ReadEntries(data, q, acc) == Success(Read(x, n))
  }

  /**
   * Writing a well-formed, encodable value never throws, and reading its
   * payload back under its tag gives the value, with every empty list typed
   * END, and consumes exactly the bytes written.
   */
  lemma {:induction false} PayloadRoundTrip(v: Nbt, order: KeyOrder, data: seq<u8>, p: nat, n: nat)
    requires ValidOrder(order) && WellFormed(v) && Encodable(v) && TagOf(v) != END
    requires At(data, p, Payload(v, order).bytes) && n == p + |Payload(v, order).bytes|
    ensures Payload(v, order).error == None
    ensures PayloadReads(data, p, TagOf(v), Canon(v), n)
  {
    PayloadNeverThrows(v, order);
    PayloadReadsBack(v, order, data, p, n);
  }

  lemma {:induction false} PayloadReadsBack(v: Nbt, order: KeyOrder, data: seq<u8>, p: nat, n: nat)
    requires ValidOrder(order) && WellFormed(v) && Encodable(v) && TagOf(v) != END
    requires At(data, p, PayloadBytes(v, order)) && n == p + |PayloadBytes(v, order)|
    ensures PayloadReads(data, p, TagOf(v), Canon(v), n)
    decreases v, 2
  {
    if v.List? {
      ListReadsBack(v, order, data, p, n);
    } else if v.Compound? {
      CompoundReadsBack(v, order, data, p, n);
    } else {
      LeafReadsBack(v, order, data, p, n);
    }
  }

  /** The payload of a value that holds no other values is its leaf bytes, and the value is its own canonical form. */
  lemma {:induction false} LeafReadsBack(v: Nbt, order: KeyOrder, data: seq<u8>, p: nat, n: nat)
    requires !v.List? && !v.Compound? && TagOf(v) != END && WellFormed(v) && Encodable(v)
    requires ValidOrder(order) && At(data, p, PayloadBytes(v, order)) && n == p + |PayloadBytes(v, order)|
    ensures PayloadReads(data, p, TagOf(v), Canon(v), n)
  {
    LeafPayload(v, order);
    if v.Byte? || v.Short? || v.Int? || v.Long? || v.Float? || v.Double? {
      NumberRoundTrip(v, data, p, n);
    } else {
      SequenceRoundTrip(v, data, p, n);
    }
    ReadsLeaf(data, p, TagOf(v));
  }

  /** A value that holds no other values is written as its leaf bytes and is its own canonical form. */
  lemma {:induction false} LeafPayload(v: Nbt, order: KeyOrder)
    requires !v.List? && !v.Compound? && ValidOrder(order)
    ensures PayloadBytes(v, order) == LeafBytes(v) && Canon(v) == v
  {
  }

  /** The round trip of the six numeric tags, ending at `n`. */
  lemma {:induction false} NumberRoundTrip(v: Nbt, data: seq<u8>, p: nat, n: nat)
    requires v.Byte? || v.Short? || v.Int? || v.Long? || v.Float? || v.Double?
    requires At(data, p, LeafBytes(v)) && n == p + |LeafBytes(v)|
    ensures ReadLeaf(data, p, TagOf(v)) == Success(Read(v, n))
  {
    match v
    case Byte(b) => ByteRoundTrip(b, data, p, n);
    case Short(x) => ShortRoundTrip(x, data, p, n);
    case Int(x) => IntRoundTrip(x, data, p, n);
    case Long(x) => LongRoundTrip(x, data, p, n);
    case Float(bits) => FloatRoundTrip(bits, data, p, n);
    case Double(bits) => DoubleRoundTrip(bits, data, p, n);
  }

  /** The round trip of strings and the three array tags, ending at `n`. */
  lemma {:induction false} SequenceRoundTrip(v: Nbt, data: seq<u8>, p: nat, n: nat)
    requires v.Str? || v.ByteArray? || v.IntArray? || v.LongArray?
    requires WellFormed(v) && Encodable(v)
    requires At(data, p, LeafBytes(v)) && n == p + |LeafBytes(v)|
    ensures ReadLeaf(data, p, TagOf(v)) == Success(Read(v, n))
  {
    match v
    case Str(s) => StrRoundTrip(s, data, p, n);
    case ByteArray(bs) => ByteArrayRoundTrip(bs, data, p, n);
    case IntArray(xs) => IntArrayRoundTrip(xs, data, p, n);
    case LongArray(xs) => LongArrayRoundTrip(xs, data, p, n);
  }

  /** `readByte` reads back the byte `write` put out. */
  lemma {:induction false} ByteRoundTrip(b: i8, data: seq<u8>, p: nat, n: nat)
    requires At(data, p, LeafBytes(Byte(b))) && n == p + |LeafBytes(Byte(b))|
    ensures ReadLeaf(data, p, TagOf(Byte(b))) == Success(Read(Byte(b), n))
  {
    OneByteAt(data, p, ByteBytes(b));
  }

  /** `readShort` reads back the 2 bytes `writeShort` put out. */
  lemma {:induction false} ShortRoundTrip(x: i16, data: seq<u8>, p: nat, n: nat)
    requires At(data, p, LeafBytes(Short(x))) && n == p + |LeafBytes(Short(x))|
    ensures ReadLeaf(data, p, TagOf(Short(x))) == Success(Read(Short(x), n))
  {
    ReadFixedOfBytes(data, p, 2, x);
  }

  /** `readInt` reads back the 4 bytes `writeInt` put out. */
  lemma {:induction false} IntRoundTrip(x: i32, data: seq<u8>, p: nat, n: nat)
    requires At(data, p, LeafBytes(Int(x))) && n == p + |LeafBytes(Int(x))|
    ensures ReadLeaf(data, p, TagOf(Int(x))) == Success(Read(Int(x), n))
  {
    ReadFixedOfBytes(data, p, 4, x);
  }

  /** `readLong` reads back the 8 bytes `writeLong` put out. */
  lemma {:induction false} LongRoundTrip(x: i64, data: seq<u8>, p: nat, n: nat)
    requires At(data, p, LeafBytes(Long(x))) && n == p + |LeafBytes(Long(x))|
    ensures ReadLeaf(data, p, TagOf(Long(x))) == Success(Read(Long(x), n))
  {
    ReadFixedOfBytes(data, p, 8, x);
  }

  /** `readFloat` reads back the bit pattern `writeFloat` put out. */
  lemma {:induction false} FloatRoundTrip(bits: Bits32, data: seq<u8>, p: nat, n: nat)
    requires At(data, p, LeafBytes(Float(bits))) && n == p + |LeafBytes(Float(bits))|
    ensures ReadLeaf(data, p, TagOf(Float(bits))) == Success(Read(Float(bits), n))
  {
    FloatBitsRead(bits, data, p);
  }

  /** The four bytes of a float's bit pattern read back as that pattern. */
  lemma {:induction false} FloatBitsRead(bits: Bits32, data: seq<u8>, p: nat)
    requires At(data, p, ToBytes(bits, 4))
    ensures ReadFixed(data, p, 4).value % 0x1_0000_0000 == bits && ReadFixed(data, p, 4).next == p + 4
  {
    ReadBits(data, p, 4, bits);
    DivModUnique(ReadFixed(data, p, 4).value, 0x1_0000_0000, 0, bits);
  }

  /** `readDouble` reads back the bit pattern `writeDouble` put out. */
  lemma {:induction false} DoubleRoundTrip(bits: Bits64, data: seq<u8>, p: nat, n: nat)
    requires At(data, p, LeafBytes(Double(bits))) && n == p + |LeafBytes(Double(bits))|
    ensures ReadLeaf(data, p, TagOf(Double(bits))) == Success(Read(Double(bits), n))
  {
    DoubleBitsRead(bits, data, p);
  }

  /** The eight bytes of a double's bit pattern read back as that pattern. */
  lemma {:induction false} DoubleBitsRead(bits: Bits64, data: seq<u8>, p: nat)
    requires At(data, p, ToBytes(bits, 8))
    ensures ReadFixed(data, p, 8).value % 0x1_0000_0000_0000_0000 == bits && ReadFixed(data, p, 8).next == p + 8
  {
    ReadBits(data, p, 8, bits);
    DivModUnique(ReadFixed(data, p, 8).value, 0x1_0000_0000_0000_0000, 0, bits);
  }

  /** The STRING payload is `writeString` and reads back through `readString`. */
  lemma {:induction false} StrRoundTrip(s: string, data: seq<u8>, p: nat, n: nat)
    requires WellFormed(Str(s)) && Encodable(Str(s))
    requires At(data, p, LeafBytes(Str(s))) && n == p + |LeafBytes(Str(s))|
    ensures ReadLeaf(data, p, TagOf(Str(s))) == Success(Read(Str(s), n))
  {
    StringRoundTrip(data, p, s, n);
  }

  /** `readByteArray` reads back the count and the bytes of `writeByteArray`. */
  lemma {:induction false} ByteArrayRoundTrip(bs: seq<i8>, data: seq<u8>, p: nat, n: nat)
    requires |bs| <= MaxJavaLength
    requires At(data, p, LeafBytes(ByteArray(bs))) && n == p + |LeafBytes(ByteArray(bs))|
    ensures ReadLeaf(data, p, TagOf(ByteArray(bs))) == Success(Read(ByteArray(bs), n))
  {
    ByteArrayLayout(bs);
    SplitAt(data, p, IntBytes(|bs|), RawBytes(bs));
    ReadByteArrayOf(data, p, bs, n);
  }

  /** `readIntArray` reads back the count and the elements of `writeIntArray`. */
  lemma {:induction false} IntArrayRoundTrip(xs: seq<i32>, data: seq<u8>, p: nat, n: nat)
    requires |xs| <= MaxJavaLength
    requires At(data, p, LeafBytes(IntArray(xs))) && n == p + |LeafBytes(IntArray(xs))|
    ensures ReadLeaf(data, p, TagOf(IntArray(xs))) == Success(Read(IntArray(xs), n))
  {
    IntArrayLayout(xs);
    SplitAt(data, p, IntBytes(|xs|), IntsBytes(xs));
    ReadIntArrayOf(data, p, xs, n);
  }

  /** `readLongArray` reads back the count and the elements of `writeLongArray`. */
  lemma {:induction false} LongArrayRoundTrip(xs: seq<i64>, data: seq<u8>, p: nat, n: nat)
    requires |xs| <= MaxJavaLength
    requires At(data, p, LeafBytes(LongArray(xs))) && n == p + |LeafBytes(LongArray(xs))|
    ensures ReadLeaf(data, p, TagOf(LongArray(xs))) == Success(Read(LongArray(xs), n))
  {
    LongArrayLayout(xs);
    SplitAt(data, p, IntBytes(|xs|), LongsBytes(xs));
    ReadLongArrayOf(data, p, xs, n);
  }

  /** `readNBT` hands every tag but LIST and COMPOUND to the leaf readers. */
  lemma {:induction false} ReadsLeaf(data: seq<u8>, p: nat, t: Tag)
    requires p <= |data| && t != LIST && t != COMPOUND
    ensures ReadPayload(data, p, t) == ReadLeaf(data, p, t)
  {
  }

  /** A byte payload read by `readNBT`, as the compound examples below use it. */
  lemma {:induction false} ByteReads(b: i8, data: seq<u8>, p: nat)
    requires At(data, p, ByteBytes(b))
    ensures PayloadReads(data, p, BYTE, Byte(b), p + 1)
  {
    OneByteAt(data, p, ByteBytes(b));
    ReadsLeaf(data, p, BYTE);
  }

  /** The BYTE_ARRAY payload is its count followed by its bytes. */
  lemma {:induction false} ByteArrayLayout(bs: seq<i8>)
    ensures LeafBytes(ByteArray(bs)) == IntBytes(|bs|) + RawBytes(bs)
    ensures |LeafBytes(ByteArray(bs))| == 4 + |bs| && TagOf(ByteArray(bs)) == BYTE_ARRAY
  {
  }

  /** The IntArray payload is its count followed by its elements. */
  lemma {:induction false} IntArrayLayout(xs: seq<i32>)
    ensures LeafBytes(IntArray(xs)) == IntBytes(|xs|) + IntsBytes(xs)
    ensures |LeafBytes(IntArray(xs))| == 4 + 4 * |xs| && TagOf(IntArray(xs)) == INT_ARRAY
  {
  }

  /** The LongArray payload is its count followed by its elements. */
  lemma {:induction false} LongArrayLayout(xs: seq<i64>)
    ensures LeafBytes(LongArray(xs)) == IntBytes(|xs|) + LongsBytes(xs)
    ensures |LeafBytes(LongArray(xs))| == 4 + 8 * |xs| && TagOf(LongArray(xs)) == LONG_ARRAY
  {
  }

  lemma {:induction false} ReadByteArrayOf(data: seq<u8>, p: nat, bs: seq<i8>, n: nat)
    requires |bs| <= MaxJavaLength && n == p + 4 + |bs|
    requires At(data, p, IntBytes(|bs|)) && At(data, p + 4, RawBytes(bs))
    ensures ReadByteArray(data, p) == Success(Read(ByteArray(bs), n))
  {
    ReadCount(data, p, |bs|);
    ReadByteArrayFrom(data, p, bs, n);
  }

  /** Reading the bytes `write(byte[])` put out as signed bytes gives the array back. */
  lemma {:induction false} SignedRaw(bs: seq<i8>)
    ensures SignedBytes(RawBytes(bs)) == bs
  {
    if bs != [] {
      SignedRaw(bs[1..]);
      var raw := RawBytes(bs);
      assert raw[1..] == RawBytes(bs[1..]);
      SignedOfPattern(bs[0], 1);
      assert bs == [bs[0]] + bs[1..];
    }
  }

  /** `readByteArray` once its count is known and the array's bytes follow it. */
  lemma {:induction false} ReadByteArrayFrom(data: seq<u8>, p: nat, bs: seq<i8>, n: nat)
    requires At(data, p + 4, RawBytes(bs)) && n == p + 4 + |bs|
    requires ReadFixed(data, p, 4).next == p + 4 && ToI32(ReadFixed(data, p, 4).value) == |bs|
    ensures ReadByteArray(data, p) == Success(Read(ByteArray(bs), n))
  {
    SignedRaw(bs);
  }

  lemma {:induction false} ReadIntArrayOf(data: seq<u8>, p: nat, xs: seq<i32>, n: nat)
    requires |xs| <= MaxJavaLength && n == p + 4 + 4 * |xs|
    requires At(data, p, IntBytes(|xs|)) && At(data, p + 4, IntsBytes(xs))
    ensures ReadIntArray(data, p) == Success(Read(IntArray(xs), n))
  {
    ReadCount(data, p, |xs|);
    ReadIntsOf(data, p + 4, xs);
    ReadIntArrayFrom(data, p, xs, n);
  }

  /** `readIntArray` once its count and its elements are known. */
  lemma {:induction false} ReadIntArrayFrom(data: seq<u8>, p: nat, xs: seq<i32>, n: nat)
    requires p + 4 <= |data|
    requires ReadFixed(data, p, 4).next == p + 4 && ToI32(ReadFixed(data, p, 4).value) == |xs|
    requires ReadInts(data, p + 4, |xs|) == Read(xs, n)
    ensures ReadIntArray(data, p) == Success(Read(IntArray(xs), n))
  {
  }

  lemma {:induction false} ReadLongArrayOf(data: seq<u8>, p: nat, xs: seq<i64>, n: nat)
    requires |xs| <= MaxJavaLength && n == p + 4 + 8 * |xs|
    requires At(data, p, IntBytes(|xs|)) && At(data, p + 4, LongsBytes(xs))
    ensures ReadLongArray(data, p) == Success(Read(LongArray(xs), n))
  {
    ReadCount(data, p, |xs|);
    ReadLongsOf(data, p + 4, xs);
    ReadLongArrayFrom(data, p, xs, n);
  }

  /** `readLongArray` once its count and its elements are known. */
  lemma {:induction false} ReadLongArrayFrom(data: seq<u8>, p: nat, xs: seq<i64>, n: nat)
    requires p + 4 <= |data|
    requires ReadFixed(data, p, 4).next == p + 4 && ToI32(ReadFixed(data, p, 4).value) == |xs|
    requires ReadLongs(data, p + 4, |xs|) == Read(xs, n)
    ensures ReadLongArray(data, p) == Success(Read(LongArray(xs), n))
  {
  }

  // ----- lists -----

  lemma {:induction false} ListReadsBack(v: Nbt, order: KeyOrder, data: seq<u8>, p: nat, n: nat)
    requires v.List? && ValidOrder(order) && WellFormed(v) && Encodable(v)
    requires At(data, p, PayloadBytes(v, order)) && n == p + |PayloadBytes(v, order)|
    ensures PayloadReads(data, p, LIST, Canon(v), n)
    decreases v, 1
  {
    var t, len := Canon(v).elementType, |v.items|;
    ListLayout(v, order, data, p);
    ElementsReadBack(v, order, data, p, 0, len, p + 5, n);
    ReadListOf(data, p, t, len, CanonAll(v.items[0..]), n);
    CanonList(v);
  }

  /** A list's bytes: its canonical element type, its count, then its elements. */
  lemma {:induction false} ListLayout(v: Nbt, order: KeyOrder, data: seq<u8>, p: nat)
    requires v.List? && ValidOrder(order) && WellFormed(v)
    requires At(data, p, PayloadBytes(v, order))
    ensures p + 5 <= |data| && data[p] == Id(Canon(v).elementType)
    ensures ToI32(ReadFixed(data, p + 1, 4).value) == |v.items| && ReadFixed(data, p + 1, 4).next == p + 5
    ensures At(data, p + 5, ElementBytes(v, order, 0))
    ensures |PayloadBytes(v, order)| == 5 + |ElementBytes(v, order, 0)|
  {
    var t, n := Canon(v).elementType, |v.items|;
    ListHeader(v, order);
    SplitAt(data, p, TagBytes(t) + IntBytes(n), ElementBytes(v, order, 0));
    SplitAt(data, p, TagBytes(t), IntBytes(n));
    TagAt(data, p, t);
    ReadCount(data, p + 1, n);
  }

  lemma {:induction false} TagAt(data: seq<u8>, p: nat, t: Tag)
    requires At(data, p, TagBytes(t))
    ensures p < |data| && data[p] == Id(t)
  {
    OneByteAt(data, p, TagBytes(t));
  }

  /** A single byte laid out at `p` is the byte there. */
  lemma {:induction false} OneByteAt(data: seq<u8>, p: nat, bs: seq<u8>)
    requires |bs| == 1 && At(data, p, bs)
    ensures p < |data| && data[p] == bs[0]
  {
    assert Bytes(data, p, p + 1) == [data[p]] + Bytes(data, p + 1, p + 1);
  }

  /** Re-inserting the elements of a well-formed list succeeds with its canonical type, so the header is that type and the count. */
  lemma {:induction false} ListHeader(v: Nbt, order: KeyOrder)
    requires v.List? && ValidOrder(order) && WellFormed(v)
    ensures PayloadBytes(v, order) == TagBytes(Canon(v).elementType) + IntBytes(|v.items|) + ElementBytes(v, order, 0)
  {
    AdmitAllFromEnd(v.items);
    ElementsNeverThrow(v, order, 0);
    assert Payload(v, order) == Then(Ok(TagBytes(Canon(v).elementType) + IntBytes(|v.items|)), ElementsFrom(v, order, 0));
  }

  lemma {:induction false} CanonList(v: Nbt)
    requires v.List?
    ensures Canon(v) == List(Canon(v).elementType, CanonAll(v.items[0..]))
  {
    assert v.items[0..] == v.items;
    CanonAllAt(v.items);
  }

  /** `readList` on a tag byte, a non-negative count and that many payloads. */
  lemma {:induction false} ReadListOf(data: seq<u8>, p: nat, t: Tag, n: nat, items: seq<Nbt>, q: nat)
    requires p + 5 <= |data| && data[p] == Id(t)
    requires ToI32(ReadFixed(data, p + 1, 4).value) == n && ReadFixed(data, p + 1, 4).next == p + 5
    requires ElementsRead(data, p, t, n, p + 5, items, q)
    ensures PayloadReads(data, p, LIST, List(t, items), q)
  {
    FromIdOfId(t);
  }

  /** The element payloads from index `i` on read back as the canonical elements. */
  lemma {:induction false} ElementsReadBack(v: Nbt, order: KeyOrder, data: seq<u8>, start: nat, i: nat, k: nat, q: nat, n: nat)
    requires v.List? && ValidOrder(order) && WellFormed(v) && Encodable(v)
    requires i + k == |v.items| && start < q
    requires At(data, q, ElementBytes(v, order, i)) && n == q + |ElementBytes(v, order, i)|
    ensures ElementsRead(data, start, Canon(v).elementType, k, q, CanonAll(v.items[i..]), n)
    decreases v, 0, k
  {
    if i < |v.items| {
      ElementOf(v, i);
      var q' := ElementsSplit(v, order, data, i, q);
      PayloadReadsBack(v.items[i], order, data, q, q');
      ElementsReadBack(v, order, data, start, i + 1, k - 1, q', n);
      ReadElementsCons(data, start, Canon(v).elementType, k, q, Canon(v.items[i]), q', CanonAll(v.items[i + 1..]), n);
      CanonAllStep(v.items, i);
    } else {
      assert v.items[i..] == [];
    }
  }

  /** The bytes of the elements from `i` on: element `i`'s payload, then those of the rest. */
  lemma {:induction false} ElementsSplit(v: Nbt, order: KeyOrder, data: seq<u8>, i: nat, q: nat) returns (q': nat)
    requires v.List? && ValidOrder(order) && WellFormed(v) && i < |v.items|
    requires At(data, q, ElementBytes(v, order, i))
    ensures q' == q + |PayloadBytes(v.items[i], order)|
    ensures At(data, q, PayloadBytes(v.items[i], order))
    ensures At(data, q', ElementBytes(v, order, i + 1))
    ensures q + |ElementBytes(v, order, i)| == q' + |ElementBytes(v, order, i + 1)|
  {
    ElementsStep(v, order, i);
    SplitAt(data, q, PayloadBytes(v.items[i], order), ElementBytes(v, order, i + 1));
    q' := q + |PayloadBytes(v.items[i], order)|;
  }

  lemma {:induction false} ElementsStep(v: Nbt, order: KeyOrder, i: nat)
    requires v.List? && ValidOrder(order) && WellFormed(v) && i < |v.items|
    ensures ElementBytes(v, order, i) == PayloadBytes(v.items[i], order) + ElementBytes(v, order, i + 1)
  {
    PayloadNeverThrows(v.items[i], order);
    assert ElementsFrom(v, order, i) == Then(Payload(v.items[i], order), ElementsFrom(v, order, i + 1));
  }

  lemma {:induction false} ElementOf(v: Nbt, i: nat)
    requires v.List? && WellFormed(v) && Encodable(v) && i < |v.items|
    ensures WellFormed(v.items[i]) && Encodable(v.items[i])
    ensures TagOf(v.items[i]) == Canon(v).elementType != END
  {
  }

  /** One more payload in front of the remaining elements. */
  lemma {:induction false} ReadElementsCons(data: seq<u8>, start: nat, t: Tag, k: nat, q: nat, x: Nbt, q': nat, xs: seq<Nbt>, n: nat)
    requires start < q && k > 0
    requires PayloadReads(data, q, t, x, q')
    requires ElementsRead(data, start, t, k - 1, q', xs, n)
    ensures ElementsRead(data, start, t, k, q, [x] + xs, n)
  {
  }

  // ----- compounds -----

  /** The keys before position `i` of the iteration order, each bound to its canonical value. */
  function ReadSoFar(m: map<string, Nbt>, ks: seq<string>, i: nat): map<string, Nbt>
    requires i <= |ks|
  {
    map k | k in m && k in ks[..i] :: Canon(m[k])
  }

  lemma {:induction false} CompoundReadsBack(v: Nbt, order: KeyOrder, data: seq<u8>, p: nat, n: nat)
    requires v.Compound? && ValidOrder(order) && WellFormed(v) && Encodable(v)
    requires At(data, p, PayloadBytes(v, order)) && n == p + |PayloadBytes(v, order)|
    ensures PayloadReads(data, p, COMPOUND, Canon(v), n)
    decreases v, 1
  {
    CompoundLayout(v, order);
    assert ReadSoFar(v.entries, order(v.entries), 0) == map[];
    EntriesReadBack(v, order, data, 0, p, map[], n);
  }

  /** A compound's bytes: its entries, then the END byte. */
  lemma {:induction false} CompoundLayout(v: Nbt, order: KeyOrder)
    requires v.Compound? && ValidOrder(order) && WellFormed(v)
    ensures PayloadBytes(v, order) == EntryBytes(v, order, 0) + TagBytes(END)
  {
    assert !exists k :: k in v.entries && v.entries[k] == End by {
      forall k | k in v.entries ensures v.entries[k] != End {
        assert TagOf(v.entries[k]) != END;
      }
    }
    EntriesNeverThrow(v, order, 0);
    assert Payload(v, order) == Then(EntriesFrom(v, order, 0), Ok(TagBytes(END)));
  }

  /** The entries from position `i` of the iteration order on, then the END byte, complete the compound. */
  lemma {:induction false} EntriesReadBack(v: Nbt, order: KeyOrder, data: seq<u8>, i: nat, q: nat, acc: map<string, Nbt>, n: nat)
    requires v.Compound? && ValidOrder(order) && WellFormed(v) && Encodable(v)
    requires i <= |order(v.entries)| && acc == ReadSoFar(v.entries, order(v.entries), i)
    requires At(data, q, EntryBytes(v, order, i) + TagBytes(END)) && n == q + |EntryBytes(v, order, i)| + 1
    ensures EntriesRead(data, q, acc, Canon(v), n)
    decreases v, 0, |order(v.entries)| - i
  {
    var m, ks := v.entries, order(v.entries);
    if i == |ks| {
      EntriesEnd(v, order, data, q, acc, n);
    } else {
      var k, x := EntryOf(v, order, i);
      var q1, q2 := EntrySplit(v, order, data, i, q, k, x);
      ReadSoFarStep(m, ks, i);
      EntriesReadBack(v, order, data, i + 1, q2, acc[k := Canon(x)], n);
      EntryReadsBack(x, k, order, data, q, q1, q2, acc, Canon(v), n);
    }
  }

  /**
   * One entry reads back: whatever the entries after it read back as, reading
   * from the entry's tag byte gives the same, with its name bound to its
   * canonical value.
   */
  lemma {:induction false} EntryReadsBack(x: Nbt, k: string, order: KeyOrder, data: seq<u8>, q: nat, q1: nat, q2: nat,
                                         acc: map<string, Nbt>, y: Nbt, n: nat)
    requires ValidOrder(order) && WellFormed(x) && Encodable(x) && ShortAscii(k) && TagOf(x) != END
    requires q < |data| && data[q] == Id(TagOf(x))
    requires At(data, q + 1, StringBytes(Some(k))) && q1 == q + 1 + |StringBytes(Some(k))|
    requires At(data, q1, PayloadBytes(x, order)) && q2 == q1 + |PayloadBytes(x, order)|
    requires EntriesRead(data, q2, acc[k := Canon(x)], y, n)
    ensures EntriesRead(data, q, acc, y, n)
    decreases x, 3
  {
    PayloadReadsBack(x, order, data, q1, q2);
    ReadEntryNamed(data, q, acc, TagOf(x), k, q1, Canon(x), q2, y, n);
  }

  /** Where the parts of the `i`-th entry, and what follows it, lie: its name from `q + 1`, its payload from `q1`, the rest from `q2`. */
  lemma {:induction false} EntrySplit(v: Nbt, order: KeyOrder, data: seq<u8>, i: nat, q: nat, k: string, x: Nbt) returns (q1: nat, q2: nat)
    requires v.Compound? && ValidOrder(order) && WellFormed(v)
    requires i < |order(v.entries)| && k == order(v.entries)[i] && k in v.entries && x == v.entries[k]
    requires At(data, q, EntryBytes(v, order, i) + TagBytes(END))
    ensures q < |data| && data[q] == Id(TagOf(x))
    ensures q1 == q + 1 + |StringBytes(Some(k))| && At(data, q + 1, StringBytes(Some(k)))
    ensures q2 == q1 + |PayloadBytes(x, order)| && At(data, q1, PayloadBytes(x, order))
    ensures At(data, q2, EntryBytes(v, order, i + 1) + TagBytes(END))
    ensures q2 == q + |EntryBytes(v, order, i)| - |EntryBytes(v, order, i + 1)|
  {
    EntryStep(v, order, i);
    q1 := q + 1 + |StringBytes(Some(k))|;
    q2 := q1 + |PayloadBytes(x, order)|;
    EntryAt(data, q, q1, q2, TagOf(x), StringBytes(Some(k)), PayloadBytes(x, order), EntryBytes(v, order, i + 1));
  }

  /** The `i`-th key of the iteration order, and its value, which is well-formed, encodable and not END. */
  lemma {:induction false} EntryOf(v: Nbt, order: KeyOrder, i: nat) returns (k: string, x: Nbt)
    requires v.Compound? && ValidOrder(order) && WellFormed(v) && Encodable(v)
    requires i < |order(v.entries)|
    ensures k == order(v.entries)[i] && k in v.entries && x == v.entries[k]
    ensures WellFormed(x) && Encodable(x) && ShortAscii(k) && TagOf(x) != END
  {
    assert Enumerates(order(v.entries), v.entries);
    k := order(v.entries)[i];
    x := v.entries[k];
  }

  /** The bytes of the entries from `i` on: the `i`-th entry's tag, name and payload, then those of the rest. */
  lemma {:induction false} EntryStep(v: Nbt, order: KeyOrder, i: nat)
    requires v.Compound? && ValidOrder(order) && WellFormed(v)
    requires i < |order(v.entries)| && order(v.entries)[i] in v.entries
    ensures var k := order(v.entries)[i];
      EntryBytes(v, order, i)
      == TagBytes(TagOf(v.entries[k])) + StringBytes(Some(k)) + PayloadBytes(v.entries[k], order) + EntryBytes(v, order, i + 1)
  {
    var k := order(v.entries)[i];
    PayloadNeverThrows(v.entries[k], order);
    assert EntriesFrom(v, order, i)
      == Then(Then(Ok(TagBytes(TagOf(v.entries[k])) + StringBytes(Some(k))), Payload(v.entries[k], order)), EntriesFrom(v, order, i + 1));
  }

  /** Where the parts of one entry, and what follows it, lie. */
  lemma {:induction false} EntryAt(data: seq<u8>, q: nat, q1: nat, q2: nat, t: Tag, name: seq<u8>, payload: seq<u8>, rest: seq<u8>)
    requires At(data, q, TagBytes(t) + name + payload + rest + TagBytes(END))
    requires q1 == q + 1 + |name| && q2 == q1 + |payload|
    ensures q < |data| && data[q] == Id(t)
    ensures At(data, q + 1, name)
    ensures At(data, q1, payload)
    ensures At(data, q2, rest + TagBytes(END))
  {
    assert TagBytes(t) + name + payload + rest + TagBytes(END) == TagBytes(t) + name + payload + (rest + TagBytes(END));
    SplitAt(data, q, TagBytes(t) + name + payload, rest + TagBytes(END));
    SplitAt(data, q, TagBytes(t) + name, payload);
    SplitAt(data, q, TagBytes(t), name);
    TagAt(data, q, t);
  }

  lemma {:induction false} ReadSoFarStep(m: map<string, Nbt>, ks: seq<string>, i: nat)
    requires i < |ks| && ks[i] in m
    ensures ReadSoFar(m, ks, i)[ks[i] := Canon(m[ks[i]])] == ReadSoFar(m, ks, i + 1)
  {
    assert ks[..i + 1] == ks[..i] + [ks[i]];
  }

  /** After the last entry, the END byte closes the compound holding every entry. */
  lemma {:induction false} EntriesEnd(v: Nbt, order: KeyOrder, data: seq<u8>, q: nat, acc: map<string, Nbt>, n: nat)
    requires v.Compound? && ValidOrder(order)
    requires acc == ReadSoFar(v.entries, order(v.entries), |order(v.entries)|)
    requires At(data, q, EntryBytes(v, order, |order(v.entries)|) + TagBytes(END)) && n == q + |EntryBytes(v, order, |order(v.entries)|)| + 1
    ensures EntriesRead(data, q, acc, Canon(v), n)
  {
    var m, ks := v.entries, order(v.entries);
    assert Enumerates(ks, m);
    assert ks[..|ks|] == ks;
    assert acc == Canon(v).entries;
    EndAt(data, q, EntryBytes(v, order, |ks|));
  }

  /** Nothing but the END byte: it is there. */
  lemma {:induction false} EndAt(data: seq<u8>, q: nat, none: seq<u8>)
    requires |none| == 0 && At(data, q, none + TagBytes(END))
    ensures q < |data| && data[q] == 0
  {
    assert none + TagBytes(END) == TagBytes(END);
    TagAt(data, q, END);
  }

  /** One entry of a compound read: its tag, name and payload, then the remaining entries. */
  lemma {:induction false} ReadEntriesCons(data: seq<u8>, q: nat, acc: map<string, Nbt>, t: Tag, k: string, q1: nat, x: Nbt, q2: nat, y: Nbt, n: nat)
    requires q < |data| && data[q] == Id(t) && t != END
    requires ReadString(data, q + 1) == Success(Read(k, q1))
    requires PayloadReads(data, q1, t, x, q2)
    requires EntriesRead(data, q2, acc[k := x], y, n)
    ensures EntriesRead(data, q, acc, y, n)
  {
    EntryThenRest(data, q, acc, t, k, q1, x, q2);
  }

  /** The name of an entry reads back, so the entry does. */
  lemma {:induction false} ReadEntryNamed(data: seq<u8>, q: nat, acc: map<string, Nbt>, t: Tag, k: string, q1: nat, x: Nbt, q2: nat, y: Nbt, n: nat)
    requires q < |data| && data[q] == Id(t) && t != END
    requires ShortAscii(k) && At(data, q + 1, StringBytes(Some(k))) && q1 == q + 1 + |StringBytes(Some(k))|
    requires PayloadReads(data, q1, t, x, q2)
    requires EntriesRead(data, q2, acc[k := x], y, n)
    ensures EntriesRead(data, q, acc, y, n)
  {
    NameReads(data, q + 1, k, q1);
    ReadEntriesCons(data, q, acc, t, k, q1, x, q2, y, n);
  }

  /** A short ASCII name reads back from its bytes. */
  lemma {:induction false} NameReads(data: seq<u8>, p: nat, k: string, n: nat)
    requires ShortAscii(k) && At(data, p, StringBytes(Some(k))) && n == p + |StringBytes(Some(k))|
    ensures ReadString(data, p) == Success(Read(k, n))
  {
    StringRoundTrip(data, p, k, n);
  }

  /** `write` of a well-formed value never throws. */
  lemma {:induction false} PayloadNeverThrows(v: Nbt, order: KeyOrder)
    requires ValidOrder(order) && WellFormed(v)
    ensures Payload(v, order).error == None
    decreases v, 2, 0
  {
    match v
    case List(t, xs) =>
      AdmitAllFromEnd(xs);
      ElementsNeverThrow(v, order, 0);
    case Compound(m) =>
      assert !exists k :: k in m && m[k] == End by {
        forall k | k in m ensures m[k] != End {
          assert TagOf(m[k]) != END;
        }
      }
      EntriesNeverThrow(v, order, 0);
    case _ =>
  }

  lemma {:induction false} ElementsNeverThrow(v: Nbt, order: KeyOrder, i: nat)
    requires v.List? && ValidOrder(order) && WellFormed(v) && i <= |v.items|
    ensures ElementsFrom(v, order, i).error == None
    decreases v, 1, |v.items| - i
  {
    if i < |v.items| {
      PayloadNeverThrows(v.items[i], order);
      ElementsNeverThrow(v, order, i + 1);
    }
  }

  lemma {:induction false} EntriesNeverThrow(v: Nbt, order: KeyOrder, i: nat)
    requires v.Compound? && ValidOrder(order) && WellFormed(v) && i <= |order(v.entries)|
    ensures EntriesFrom(v, order, i).error == None
    decreases v, 1, |order(v.entries)| - i
  {
    var ks := order(v.entries);
    if i < |ks| {
      assert Enumerates(ks, v.entries);
      PayloadNeverThrows(v.entries[ks[i]], order);
      EntriesNeverThrow(v, order, i + 1);
    }
  }

  /**
   * `readRootCompound` undoes `writeRootCompound` for a well-formed,
   * encodable compound, provided the reader expects a root name exactly when
   * one was written.
   */
  lemma {:induction false} RootRoundTrip(c: Nbt, rootName: Option<string>, order: KeyOrder)
    requires c.Compound? && ValidOrder(order) && WellFormed(c) && Encodable(c)
    requires rootName.Some? ==> ShortAscii(rootName.value)
    ensures RootBytes(Some(c), rootName, order).error == None
    ensures ReadRoot(RootBytes(Some(c), rootName, order).bytes, rootName.Some?)
      == Success(Read(Canon(c), |RootBytes(Some(c), rootName, order).bytes|))
  {
    var name := if rootName.Some? then StringBytes(rootName) else [];
    var data := RootBytes(Some(c), rootName, order).bytes;
    RootLayout(c, rootName, order);
    RootParts(data, name, PayloadBytes(c, order));
    if rootName.Some? {
      StringRoundTrip(data, 1, rootName.value, 1 + |name|);
    }
    CompoundReadsBack(c, order, data, 1 + |name|, |data|);
    ReadRootOf(data, rootName.Some?, 1 + |name|, Canon(c), |data|);
  }

  /** Where the parts of a root lie: the COMPOUND tag at 0, then the name, then the payload, which ends the stream. */
  lemma {:induction false} RootParts(data: seq<u8>, name: seq<u8>, payload: seq<u8>)
    requires data == TagBytes(COMPOUND) + name + payload
    ensures 0 < |data| && data[0] == Id(COMPOUND)
    ensures At(data, 1, name) && At(data, 1 + |name|, payload)
    ensures |data| == 1 + |name| + |payload|
  {
    AtWhole(data);
    SplitAt(data, 0, TagBytes(COMPOUND) + name, payload);
    SplitAt(data, 0, TagBytes(COMPOUND), name);
    TagAt(data, 0, COMPOUND);
  }

  /** `readRootCompound` once the COMPOUND tag, the name if one is expected, and the compound's payload are known to read back. */
  lemma {:induction false} ReadRootOf(data: seq<u8>, hasRootName: bool, q: nat, x: Nbt, n: nat)
    requires 0 < |data| && data[0] == Id(COMPOUND)
    requires hasRootName ==> ReadString(data, 1).Success? && ReadString(data, 1).value.next == q
    requires !hasRootName ==> q == 1
    requires PayloadReads(data, q, COMPOUND, x, n)
    ensures ReadRoot(data, hasRootName) == Success(Read(x, n))
  {
    FromIdOfId(COMPOUND);
  }

  /** A root compound is written as the COMPOUND tag, the name if there is one, and the payload. */
  lemma {:induction false} RootLayout(c: Nbt, rootName: Option<string>, order: KeyOrder)
    requires c.Compound? && ValidOrder(order) && WellFormed(c)
    ensures RootBytes(Some(c), rootName, order).error == None
    ensures RootBytes(Some(c), rootName, order).bytes
      == TagBytes(COMPOUND) + (if rootName.Some? then StringBytes(rootName) else []) + PayloadBytes(c, order)
  {
    PayloadNeverThrows(c, order);
  }

  lemma {:induction false} AtWhole(data: seq<u8>)
    ensures At(data, 0, data)
  {
    AtSlice(data, 0, data);
    assert data[0..|data|] == data;
  }

  /** A root whose first tag is not COMPOUND is rejected; a missing root (a lone END) is one of them. */
  lemma {:induction false} NonCompoundRootRejected(data: seq<u8>, hasRootName: bool)
    requires |data| > 0 && 0 <= data[0] < |AllTags| && data[0] != Id(COMPOUND)
    ensures ReadRoot(data, hasRootName) == Failure(NBTException)
  {
  }

  /** A list read with a declared END type and a positive count fails on its first element; with a count of zero or less it is an empty list of the declared type. */
  lemma {:induction false} ListCountCases(data: seq<u8>, p: nat, t: Tag)
    requires At(data, p, TagBytes(t)) && p + 5 <= |data|
    ensures var n := ToI32(ReadFixed(data, p + 1, 4).value);
      (n <= 0 ==> ReadList(data, p) == Success(Read(List(t, []), p + 5)))
      && (n > 0 && t == END ==> ReadList(data, p) == Failure(UnsupportedOperation))
  {
    FromIdOfId(t);
    assert data[p] == Id(t);
    var n := ToI32(ReadFixed(data, p + 1, 4).value);
    if n > 0 && t == END {
      assert ReadElements(data, p, t, n, p + 5) == Failure(UnsupportedOperation);
    }
  }

  /** When a compound repeats a name, the later entry wins. */
  lemma {:induction false} RepeatedNameKeepsLast(a: i8, b: i8)
    ensures var entry := (x: i8) => TagBytes(BYTE) + StringBytes(Some("k")) + ByteBytes(x);
      ReadCompound(entry(a) + entry(b) + TagBytes(END), 0)
      == Success(Read(Compound(map["k" := Byte(b)]), 11))
  {
    NameK();
    var data := [1, 0, 1, 'k' as int, ByteBytes(a)[0], 1, 0, 1, 'k' as int, ByteBytes(b)[0], 0];
    var entry := (x: i8) => TagBytes(BYTE) + StringBytes(Some("k")) + ByteBytes(x);
    assert entry(a) + entry(b) + TagBytes(END) == data;
    SecondEntryReads(data, a, b);
    FirstEntryReads(data, a, b);
  }

  /**
   * Two entries with the same name in a row: the compound read is the one
   * read with only the later entry, so the earlier value is lost.
   */
  lemma {:induction false} RepeatedNameOverwrites(data: seq<u8>, q: nat, acc: map<string, Nbt>, t1: Tag, k: string, q1: nat, x1: Nbt, q2: nat,
                                                  t2: Tag, q3: nat, x2: Nbt, q4: nat)
    requires q < |data| && data[q] == Id(t1) && t1 != END
    requires ReadString(data, q + 1) == Success(Read(k, q1))
    requires PayloadReads(data, q1, t1, x1, q2)
    requires q2 < |data| && data[q2] == Id(t2) && t2 != END
    requires ReadString(data, q2 + 1) == Success(Read(k, q3))
    requires PayloadReads(data, q3, t2, x2, q4)
    ensures ReadEntries(data, q, acc) == ReadEntries(data, q4, acc[k := x2])
  {
    EntryThenRest(data, q, acc, t1, k, q1, x1, q2);
    EntryThenRest(data, q2, acc[k := x1], t2, k, q3, x2, q4);
    Overwrite(acc, k, x1, x2);
  }

  lemma Overwrite(acc: map<string, Nbt>, k: string, x1: Nbt, x2: Nbt)
    ensures acc[k := x1][k := x2] == acc[k := x2]
  {
  }

  /** One entry read: the entries after it are read with it added. */
  lemma {:induction false} EntryThenRest(data: seq<u8>, q: nat, acc: map<string, Nbt>, t: Tag, k: string, q1: nat, x: Nbt, q2: nat)
    requires q < |data| && data[q] == Id(t) && t != END
    requires ReadString(data, q + 1) == Success(Read(k, q1))
    requires PayloadReads(data, q1, t, x, q2)
    ensures ReadEntries(data, q, acc) == ReadEntries(data, q2, acc[k := x])
  {
    FromIdOfId(t);
    assert ReadTag(data, q) == Success(Read(t, q + 1));
    assert ReadPayload(data, q1, t) == Success(Read(x, q2));
  }

  /** The bytes of the name "k". */
  lemma NameK()
    ensures ShortAscii("k") && StringBytes(Some("k")) == [0, 1, 'k' as int]
  {
    assert Utf.Utf16Length("k") == 1;
    assert ToI16(1) == 1;
  }

  lemma {:induction false} SecondEntryReads(data: seq<u8>, a: i8, b: i8)
    requires data == [1, 0, 1, 'k' as int, ByteBytes(a)[0], 1, 0, 1, 'k' as int, ByteBytes(b)[0], 0]
    ensures EntriesRead(data, 5, map["k" := Byte(a)], Compound(map["k" := Byte(b)]), 11)
  {
    var last := map["k" := Byte(b)];
    assert EntriesRead(data, 10, last, Compound(last), 11);
    NameK();
    assert At(data, 6, StringBytes(Some("k"))) by {
      AtSlice(data, 6, StringBytes(Some("k")));
    }
    ByteReads(b, data, 9);
    assert map["k" := Byte(a)]["k" := Byte(b)] == last;
    ReadEntryNamed(data, 5, map["k" := Byte(a)], BYTE, "k", 9, Byte(b), 10, Compound(last), 11);
  }

  lemma {:induction false} FirstEntryReads(data: seq<u8>, a: i8, b: i8)
    requires data == [1, 0, 1, 'k' as int, ByteBytes(a)[0], 1, 0, 1, 'k' as int, ByteBytes(b)[0], 0]
    requires EntriesRead(data, 5, map["k" := Byte(a)], Compound(map["k" := Byte(b)]), 11)
    ensures EntriesRead(data, 0, map[], Compound(map["k" := Byte(b)]), 11)
  {
    NameK();
    assert At(data, 1, StringBytes(Some("k"))) by {
      AtSlice(data, 1, StringBytes(Some("k")));
    }
    ByteReads(a, data, 4);
    assert map["k" := Byte(a)] == map[]["k" := Byte(a)];
    ReadEntryNamed(data, 0, map[], BYTE, "k", 4, Byte(a), 5, Compound(map["k" := Byte(b)]), 11);
  }
}
