# NBT trees, their binary codec and their text form, in Dafny

This project models the newest generation of the MachineMC NBT library: the
"named binary tag" format in which Minecraft stores worlds and sends data.

**Tags and values.** The thirteen tags from END (id 0) to LONG_ARRAY (id 12)
are the `Tag` datatype (`tags.dfy`). A tree value is the datatype `Nbt`
(`values.dfy`). The Java conversions between plain objects and trees
(`NBT.convert`, `revert`, `softEquals`, `Tag.make`) are functions over a
`Native` datatype for the Java objects involved (`convert.dfy`). Byte, short,
int and long widths are subset types of `int`, and every narrowing cast is
written out as a modular reduction (`ints.dfy`).

**Containers.** The parts the library changes in place are classes:
- `NBTCompound` is `Compounds.NbtCompound`, over a `map` field;
- `NBTList` is `Lists.NbtList`, over a `seq` field and its element type;
- the three numeric arrays are classes over Dafny `array`s, with the read-only
  view and the index iterator of `NBTArray` (`arrays.dfy`).

Each mutating method states the whole new state, and each error path
(NBTException, IndexOutOfBounds, NullPointer and so on) is a `Result`
failure.

**Binary codec.** The format is written by `NBTOutputStream` and read by
`NBTInputStream`. Both are classes over a byte sequence
(`output.dfy`, `input.dfy`). Each of their methods is proved equal to a
function in `codec.dfy`, and `codec_laws.dfy` proves the following about
those functions:
- every well-formed value whose strings and compound keys are ASCII and
  shorter than 0x8000 characters reads back as its canonical form;
- a root compound reads back, with or without a name;
- strings, integers and arrays round-trip;
- the places where the code does not round-trip, stated as lemmas: the
  string prefix is a UTF-16 count read back as a signed short, and a
  truncated stream yields -1.

The gzip magic check of section 2.3.1 of RFC 1952 is modelled. The inflater
itself is a function parameter.

**Text layer.**
- `StringReader` is `Readers.StringReader`, a class with a cursor.
- `NBTParser` is `TextParser.NbtParser`, a recursive-descent class. Each
  parsing method is proved to agree with a grammar function in
  `grammar.dfy`, on both the outcome and the final cursor.
- `NBTStringVisitor` is `StringVisitor.NbtStringVisitor`. It appends to its
  builder, and each method is proved to append the rendering `Render`.
- `NBTString.quoteAndEscape` is `QuotedStrings.QuoteAndEscape`.
- `MalformedNBTException` is `Malformed`: context window and message.

The parser quirks are proved for every input:
- the escape check rejects every escape;
- a trailing comma is accepted;
- a repeated key keeps the later value;
- a key may be empty;
- LIST_MIXED and ARRAY_MIXED are raised at the offending element.

**Text round trip.** `text_roundtrip.dfy` proves that the parser reads the
visitor's text of a compound back as the same compound, whatever text
follows it. So text after the root compound is ignored, for every compound
the round trip covers. The covered values are:
- the integers and the three numeric arrays;
- strings without a backslash or NUL that do not hold both kinds of quote;
- lists whose elements share the first element's tag, where the first
  element is not a string starting with `;`;
- compounds whose keys are bare or quotable in the same way.

Values outside this domain that do not read back are shown by lemmas, on the
inputs named:
- a NUL before the first quote character is escaped and then rejected, shown
  for the one-character string NUL;
- a list whose first string starts with `;` reads as a typed array and is
  rejected, shown for `[";"]`;
- an empty list reads back typed END, shown for every element type;
- a string holding both kinds of quote gets an escape that is then rejected,
  shown for `a"b'`.

Floats and doubles are left out of the round trip because their text is a
parameter of the model. `text_laws.dfy` holds the one-entry case on its own.

Java's `float` and `double` appear only as bit patterns. Their rendering and
parsing are function parameters (`Floats`, `Texts`). The iteration order of
a `HashMap` is a `KeyOrder` parameter: any enumeration of the key set, and
every property is proved for all of them.

## Model

| member | source | states |
|---|---|---|
| Tags.Id | src/main/java/org/machinemc/nbt/NBT.java:56-72 | every tag has an id below 13 that indexes the enum in declaration order; END is exactly id 0 |
| Tags.IdInjective | src/main/java/org/machinemc/nbt/NBT.java:87-89 | two tags have the same id iff they are the same tag |
| Tags.FromId | src/main/java/org/machinemc/nbt/NBT.java:56-72 | an id yields a tag iff it lies in 0..12, and the tag found has that id |
| Tags.FromIdOfId | src/main/java/org/machinemc/nbt/NBT.java:87-89 | looking up a tag's own id gives that tag back |
| Tags.TypeName | src/main/java/org/machinemc/nbt/NBT.java:91-93 | the type name is `Tag_` followed by the enum constant's name |
| Tags.TypeNameInjective | src/main/java/org/machinemc/nbt/NBT.java:91-93 | two tags have the same type name iff they are the same tag |
| Tags.NameInjective | src/main/java/org/machinemc/nbt/NBT.java:56-72 | no two enum constants share a name |
| Values.ByteOfNumber | nbt-core/src/main/java/org/machinemc/nbt/NBTByte.java:13-15 | a Byte whose value agrees with the number modulo 2^8 (the low 8 bits are kept) |
| Values.ByteOfBool | nbt-core/src/main/java/org/machinemc/nbt/NBTByte.java:17-19 | a Byte holding 1 for true and 0 for false, and nothing else |
| Values.ShortOfNumber | nbt-core/src/main/java/org/machinemc/nbt/NBTShort.java:13-15 | a Short agreeing with the number modulo 2^16 |
| Values.IntOfNumber | nbt-core/src/main/java/org/machinemc/nbt/NBTInt.java:13-15 | an Int agreeing with the number modulo 2^32 |
| Values.LongOfNumber | src/main/java/org/machinemc/nbt/NBTLong.java:13-15 | a Long agreeing with the number modulo 2^64 |
| Values.StrOf | src/main/java/org/machinemc/nbt/NBTString.java:15-21 | a String holding the given text; a null argument is stored as `null` |
| Values.EqualsIffErased | src/main/java/org/machinemc/nbt/NBTList.java:178-181 | value equality holds iff the two trees agree once every list's declared element type is erased (list equality ignores the type field) |
| Values.EqualsIffErasedLists | src/main/java/org/machinemc/nbt/NBTList.java:178-181 | for two lists: equal iff their erased forms agree |
| Values.ErasedLists | src/main/java/org/machinemc/nbt/NBTList.java:178-181 | two erased lists of equal length agree iff their elements agree position by position |
| Values.EqualsIffErasedCompounds | src/main/java/org/machinemc/nbt/NBTCompound.java:235-237 | for two compounds: equal iff their erased forms agree, whatever the insertion order |
| Values.ErasedCompounds | src/main/java/org/machinemc/nbt/NBTCompound.java:235-237 | two erased compounds with the same keys agree iff they agree at every key |
| Values.EqualsIsEquivalence | src/main/java/org/machinemc/nbt/NBTCompound.java:235-237 | the `equals` of the tree classes is reflexive, symmetric and transitive |
| Values.EqualsScalars | nbt-core/src/main/java/org/machinemc/nbt/NBTByte.java:55-58 | equal values have the same tag; scalars, strings and arrays are equal iff identical |
| Values.Admit | src/main/java/org/machinemc/nbt/NBTList.java:188-199 | inserting into a list is refused with NBTException iff its element type is fixed (not END) and differs from the element's tag; otherwise the type becomes the element's tag |
| Values.AdmitAllFromEnd | src/main/java/org/machinemc/nbt/NBTList.java:40-44 | adding elements one by one to a fresh list succeeds iff every element after the leading END elements shares one tag, leaving the last element's tag as the type |
| Values.AdmitAllTyped | src/main/java/org/machinemc/nbt/NBTList.java:27-30 | adding to a list of fixed type succeeds iff every element has that tag, and the type stays put |
| Values.CloneEqualsOriginal | src/main/java/org/machinemc/nbt/NBTList.java:68-71 | a clone equals the original both ways; cloning fails only on a list whose elements have mixed tags |
| Values.CanonPreserves | src/main/java/org/machinemc/nbt/NBT.java:52-54 | the canonical form (list type taken from the first element) keeps the tag, stays well formed and is equal to the original |
| JavaInts.Signed | src/main/java/org/machinemc/nbt/io/NBTInputStream.java:45-61 | a narrowing cast lands in the signed range of the width |
| JavaInts.SignedCongruent | nbt-core/src/main/java/org/machinemc/nbt/NBTShort.java:13-15 | a narrowing cast keeps the value modulo 2^(8n) |
| JavaInts.FromToBytes | src/main/java/org/machinemc/nbt/io/NBTOutputStream.java:61-74 | reading back n big-endian bytes gives the value modulo 2^(8n) |
| JavaInts.ToBytesAt | src/main/java/org/machinemc/nbt/io/NBTOutputStream.java:66-69 | byte k of the big-endian encoding is the value shifted right by 8(n-1-k) bits, masked to 8 bits |
| JavaInts.SignedOfPattern | src/main/java/org/machinemc/nbt/io/NBTInputStream.java:45-61 | reinterpreting the low 8n bits of an in-range value as signed gives the value back |
| JavaInts.BytesRoundTrip | src/main/java/org/machinemc/nbt/io/NBTInputStream.java:45-61 | a signed value written as n big-endian bytes and read back as signed is unchanged |
| Utf.Encode | src/main/java/org/machinemc/nbt/io/NBTOutputStream.java:84-89 | the UTF-8 encoding is never shorter than the text |
| Utf.Decode | src/main/java/org/machinemc/nbt/io/NBTInputStream.java:71-74 | decoding never yields more characters than there are bytes |
| Utf.DecodeOne | src/main/java/org/machinemc/nbt/io/NBTInputStream.java:73 | one decoding step consumes one to four bytes; a character other than U+FFFD consumes exactly the width of its UTF-8 form |
| Utf.Span | src/main/java/org/machinemc/nbt/io/NBTInputStream.java:73 | the malformed unit replaced by one U+FFFD is a lead byte and the continuation bytes it accepted, stopping at the first byte that continues nothing |
| Utf.CutSequenceOneReplacement | src/main/java/org/machinemc/nbt/io/NBTInputStream.java:73 | the bytes E2 82 41 decode to one U+FFFD followed by `A` |
| Utf.EncodedSurrogateOneReplacement | src/main/java/org/machinemc/nbt/io/NBTInputStream.java:73 | the three-byte form of a surrogate decodes to a single U+FFFD |
| Utf.DecodeOneOfEncoded | src/main/java/org/machinemc/nbt/io/NBTInputStream.java:71-74 | decoding the first character of an encoded character followed by anything gives that character and its byte width |
| Utf.DecodeEncode | src/main/java/org/machinemc/nbt/io/NBTInputStream.java:71-74 | decoding the UTF-8 encoding of any text gives the text back |
| Utf.AsciiLengths | src/main/java/org/machinemc/nbt/io/NBTOutputStream.java:84-89 | for ASCII text the byte count, the character count and the UTF-16 count agree |
| Utf.NonAsciiLonger | src/main/java/org/machinemc/nbt/io/NBTOutputStream.java:84-89 | for text with a non-ASCII character the UTF-8 byte count exceeds the UTF-16 count that `writeString` writes as the prefix |
| Utf.NotLonger | src/main/java/org/machinemc/nbt/io/NBTOutputStream.java:84-89 | the UTF-16 count never exceeds the UTF-8 byte count |
| QuotedStrings.FirstQuote | src/main/java/org/machinemc/nbt/NBTString.java:61-67 | the position of the first quote character, with no quote before it, or none when the text has no quote |
| QuotedStrings.Delimiter | src/main/java/org/machinemc/nbt/NBTString.java:64-68 | the delimiter is a quote: `"` when the text has no quote, otherwise the opposite of the first quote character |
| QuotedStrings.QuoteAndEscape | src/main/java/org/machinemc/nbt/NBTString.java:58-70 | the loop's output is the delimiter, the text with backslashes inserted, and the delimiter again |
| QuotedStrings.QuotedEnds | src/main/java/org/machinemc/nbt/NBTString.java:68-69 | the output starts and ends with the same quote, chosen opposite to the first quote of the text |
| QuotedStrings.EscapedLength | src/main/java/org/machinemc/nbt/NBTString.java:60-69 | the escaped body is as long as the input plus the number of inserted backslashes |
| QuotedStrings.PlainTextUnchanged | src/main/java/org/machinemc/nbt/NBTString.java:59-69 | text with no quote and no NUL is copied unchanged between double quotes |
| QuotedStrings.EscapedLayout | src/main/java/org/machinemc/nbt/NBTString.java:61-67 | every input character appears in order in the body, preceded by a backslash exactly where one was inserted |
| Conversion.ClassTag | src/main/java/org/machinemc/nbt/NBT.java:45-49 | the tag found for a Java object is the only tag whose class accepts it |
| Conversion.Convert | src/main/java/org/machinemc/nbt/NBT.java:41-44 | an NBT argument is returned unchanged, null becomes End, a Boolean becomes a Byte holding 1 or 0 |
| Conversion.Make | src/main/java/org/machinemc/nbt/NBT.java:95-98 | a class mismatch gives null; otherwise a value of the requested tag |
| Conversion.ListOf | src/main/java/org/machinemc/nbt/NBTList.java:40-44 | a converted Java list has the length of its prefix |
| Conversion.CompoundOf | src/main/java/org/machinemc/nbt/NBTCompound.java:28-31 | a converted Java map has exactly the keys whose values are not null |
| Conversion.ConvertByClass | src/main/java/org/machinemc/nbt/NBT.java:45-49 | any other object is converted by the first tag whose class matches, and null when none does; the result carries that tag |
| Conversion.ConvertFromSkips | src/main/java/org/machinemc/nbt/NBT.java:45-49 | the search over tags before the matching one finds nothing |
| Conversion.RevertConvert | src/main/java/org/machinemc/nbt/NBT.java:52-54 | reverting the conversion of a plain Java value gives that value back |
| Conversion.RevertConvertList | src/main/java/org/machinemc/nbt/NBTList.java:55-61 | reverting a converted Java list gives the list's elements back |
| Conversion.ConvertRevert | src/main/java/org/machinemc/nbt/NBT.java:41-54 | converting the revert of a well-formed tree gives its canonical form |
| Conversion.ConvertRevertCompound | src/main/java/org/machinemc/nbt/NBTCompound.java:69-74 | converting a reverted compound gives the canonical compound |
| Conversion.ConvertRevertList | src/main/java/org/machinemc/nbt/NBTList.java:55-61 | converting a reverted list gives the canonical list, typed by its first element |
| Conversion.SoftEqualsOnTrees | src/main/java/org/machinemc/nbt/NBT.java:35-39 | against an NBT argument soft equality is plain equality, so values of different tags never match |
| Conversion.SoftEqualsOnPlain | src/main/java/org/machinemc/nbt/NBT.java:35-39 | against a plain Java object a scalar or string matches iff the object is its revert, End matches only null, arrays never match |
| Compounds.NbtCompound.constructor | src/main/java/org/machinemc/nbt/NBTCompound.java:24-26 | a new compound is empty |
| Compounds.NbtCompound.Set | src/main/java/org/machinemc/nbt/NBTCompound.java:181-188 | a null key or an End value throws with the map unchanged; a null value removes the key; otherwise the key is bound to the converted value and every other key keeps its value |
| Compounds.NbtCompound.Remove | src/main/java/org/machinemc/nbt/NBTCompound.java:190-192 | returns the previous value; the key is absent afterwards and the other entries are unchanged |
| Compounds.NbtCompound.Clear | src/main/java/org/machinemc/nbt/NBTCompound.java:194-196 | the compound is empty afterwards |
| Compounds.NbtCompound.GetNbt | src/main/java/org/machinemc/nbt/NBTCompound.java:146-148 | a value exactly when the key is present (never for a null key), and it is the stored one |
| Compounds.NbtCompound.GetNbtOr | src/main/java/org/machinemc/nbt/NBTCompound.java:140-144 | the default exactly when the key is absent, else the stored value |
| Compounds.NbtCompound.GetValue | src/main/java/org/machinemc/nbt/NBTCompound.java:112-119 | null when the key is absent, else the revert of the stored value |
| Compounds.NbtCompound.Size | src/main/java/org/machinemc/nbt/NBTCompound.java:86-92 | the number of entries, and empty iff there are none |
| Compounds.NbtCompound.ContainsTag | src/main/java/org/machinemc/nbt/NBTCompound.java:104-110 | true iff the tag is neither null nor END and some stored value has that tag |
| Compounds.NbtCompound.ContainsValue | src/main/java/org/machinemc/nbt/NBTCompound.java:99-102 | null is never contained; otherwise true iff the converted value equals some stored value |
| Compounds.NbtCompound.RevertMap | src/main/java/org/machinemc/nbt/NBTCompound.java:69-74 | a map with the same keys holding the revert of each value |
| Compounds.NbtCompound.Clone | src/main/java/org/machinemc/nbt/NBTCompound.java:81-84 | a fresh compound with the same entries, equal to the original in both directions |
| Compounds.OfMap | src/main/java/org/machinemc/nbt/NBTCompound.java:28-31 | building from a Java map succeeds exactly when every entry passes `set`, and the compound then holds the converted entries whose values are not null |
| Compounds.OfEntries | src/main/java/org/machinemc/nbt/NBTCompound.java:251-261 | building from key/value pairs succeeds iff every pair converts and is accepted in turn, later pairs overwriting earlier ones |
| Compounds.ConvertedNotEnd | src/main/java/org/machinemc/nbt/NBTCompound.java:244-249 | a value other than null and End converts to a non-END tag, so `check` accepts it |
| Compounds.CompoundOfHasNoEnd | src/main/java/org/machinemc/nbt/NBTCompound.java:28-31 | a compound built from a Java map never holds an END value |
| Compounds.EntriesOf | src/main/java/org/machinemc/nbt/NBTCompound.java:251-261 | a compound built from pairs never holds an END value |
| Compounds.EntriesOfStep | src/main/java/org/machinemc/nbt/NBTCompound.java:251-261 | each pair is converted, refused with IllegalArgument when unconvertible, with NBTException for a null key or END value, and otherwise rebinds its key |
| Compounds.EntriesOfPrefixFails | src/main/java/org/machinemc/nbt/NBTCompound.java:251-261 | once a pair is refused, the whole construction fails with that pair's error |
| Lists.NbtList.constructor | src/main/java/org/machinemc/nbt/NBTList.java:23-25 | a new list is empty with element type END |
| Lists.NbtList.OfType | src/main/java/org/machinemc/nbt/NBTList.java:27-30 | a new list is empty with the given element type |
| Lists.NbtList.WithCapacity | src/main/java/org/machinemc/nbt/NBTList.java:46-48 | a negative capacity, and only a negative one, throws IllegalArgumentException; otherwise the new list is empty with element type END |
| Lists.NbtList.Check | src/main/java/org/machinemc/nbt/NBTList.java:188-199 | a null element or a tag other than the fixed type throws NBTException with the type unchanged; otherwise the element passes and an END type adopts its tag |
| Lists.NbtList.Add | src/main/java/org/machinemc/nbt/NBTList.java:151-153 | on success the element is appended and the type is updated; on failure the list and its type are unchanged |
| Lists.NbtList.AddValue | src/main/java/org/machinemc/nbt/NBTList.java:147-149 | the Java value is converted first; a conversion failure or null result throws with nothing changed; otherwise as Add |
| Lists.NbtList.AddAt | src/main/java/org/machinemc/nbt/NBTList.java:131-133 | the type check comes first; in range the element is inserted at the index, out of range IndexOutOfBounds with the list unchanged |
| Lists.NbtList.Set | src/main/java/org/machinemc/nbt/NBTList.java:123-125 | the type check comes first; in range one slot is replaced and the old element returned, out of range IndexOutOfBounds |
| Lists.NbtList.Remove | src/main/java/org/machinemc/nbt/NBTList.java:135-137 | in range the element is removed and returned, otherwise IndexOutOfBounds; the element type is never reset |
| Lists.NbtList.Clear | src/main/java/org/machinemc/nbt/NBTList.java:159-161 | the list becomes empty and keeps its element type |
| Lists.NbtList.Get | src/main/java/org/machinemc/nbt/NBTList.java:115-117 | the element at the index, or IndexOutOfBounds exactly when the index is out of range |
| Lists.NbtList.SizeAndType | src/main/java/org/machinemc/nbt/NBTList.java:78-84 | the number of elements and the element type |
| Lists.NbtList.RevertList | src/main/java/org/machinemc/nbt/NBTList.java:55-61 | a list of the same length whose i-th entry is the revert of element i |
| Lists.NbtList.Clone | src/main/java/org/machinemc/nbt/NBTList.java:68-71 | succeeds iff the elements have one tag, giving a fresh list with the same elements equal to the clone of the value |
| Lists.OfCollection | src/main/java/org/machinemc/nbt/NBTList.java:40-44 | building from a Java collection succeeds iff every element converts and they share one tag, giving the converted list |
| Lists.AdmitAllPrefixFails | src/main/java/org/machinemc/nbt/NBTList.java:188-199 | once an element is refused, adding the rest cannot succeed |
| Lists.ListOfPrefixFails | src/main/java/org/machinemc/nbt/NBTList.java:40-44 | once an element of a collection is refused, the construction fails with that error |
| Lists.AdmitKeepsInvariant | src/main/java/org/machinemc/nbt/NBTList.java:192-195 | a successful insertion keeps every element's tag equal to the list's element type |
| Arrays.Unboxed | nbt-core/src/main/java/org/machinemc/nbt/NBTIntArray.java:88-92 | unboxing keeps the length and every element |
| Arrays.Unbox | nbt-core/src/main/java/org/machinemc/nbt/NBTIntArray.java:88-92 | unboxing succeeds iff no element is null, filling a fresh array with the elements; a null throws NullPointerException |
| Arrays.NewArray | nbt-core/src/main/java/org/machinemc/nbt/NBTIntArray.java:20-22 | a fresh zero-filled array of the size, or NegativeArraySizeException for a negative size |
| Arrays.CopyOf | nbt-core/src/main/java/org/machinemc/nbt/NBTByteArray.java:49-52 | a fresh array with the same contents |
| Arrays.ArrayIterator.constructor | nbt-core/src/main/java/org/machinemc/nbt/NBTArray.java:123-129 | the iterator starts at index 0 and captures the array's size |
| Arrays.ArrayIterator.Next | nbt-core/src/main/java/org/machinemc/nbt/NBTArray.java:136-138 | returns the element at the current index and advances by one; past the end IndexOutOfBounds |
| Arrays.ArrayIterator.Remaining | nbt-core/src/main/java/org/machinemc/nbt/NBTArray.java:123-141 | draining the iterator yields the elements from the current index to the end in order, after which hasNext is false |
| Arrays.ArrayView.constructor | nbt-core/src/main/java/org/machinemc/nbt/NBTArray.java:27-38 | the view keeps the backing array and the array's tag |
| Arrays.ArrayView.Size | nbt-core/src/main/java/org/machinemc/nbt/NBTArray.java:30-38 | the size of the backing array, read live |
| Arrays.ArrayView.Get | nbt-core/src/main/java/org/machinemc/nbt/NBTArray.java:30-38 | the backing array's element, or IndexOutOfBounds |
| Arrays.ArrayView.Set | nbt-core/src/main/java/org/machinemc/nbt/NBTArray.java:40-43 | always UnsupportedOperationException |
| Arrays.ArrayView.ElementType | nbt-core/src/main/java/org/machinemc/nbt/NBTArray.java:45-48 | the array's own tag, not the element tag |
| Arrays.ArrayView.Revert | nbt-core/src/main/java/org/machinemc/nbt/NBTArray.java:30-38 | a fresh copy of the backing array's current contents |
| Arrays.ArrayView.UnmodifiableView | nbt-core/src/main/java/org/machinemc/nbt/NBTArray.java:75-78 | a view's view is the view itself |
| Arrays.ArrayView.Iterator | nbt-core/src/main/java/org/machinemc/nbt/NBTArray.java:123-141 | a fresh iterator over the backing array from index 0 |
| Arrays.NbtByteArray.constructor | nbt-core/src/main/java/org/machinemc/nbt/NBTByteArray.java:30-32 | the caller's array is stored without copying |
| Arrays.NbtByteArray.FromInts | nbt-core/src/main/java/org/machinemc/nbt/NBTByteArray.java:20-24 | a fresh array of the same length keeping the low 8 bits of every int |
| Arrays.NbtByteArray.ArrayTag | nbt-core/src/main/java/org/machinemc/nbt/NBTByteArray.java:34-37 | the tag is BYTE_ARRAY |
| Arrays.NbtByteArray.ElementType | nbt-core/src/main/java/org/machinemc/nbt/NBTByteArray.java:74-77 | the element type is BYTE |
| Arrays.NbtByteArray.Size | nbt-core/src/main/java/org/machinemc/nbt/NBTByteArray.java:59-62 | the number of bytes held |
| Arrays.NbtByteArray.Get | nbt-core/src/main/java/org/machinemc/nbt/NBTByteArray.java:64-67 | the byte at the index, or IndexOutOfBounds outside the array |
| Arrays.NbtByteArray.Set | nbt-core/src/main/java/org/machinemc/nbt/NBTByteArray.java:69-72 | a null element throws NullPointerException, then an out-of-range index IndexOutOfBounds; otherwise exactly one slot changes |
| Arrays.NbtByteArray.Revert | nbt-core/src/main/java/org/machinemc/nbt/NBTByteArray.java:39-42 | a fresh copy, so later changes to it do not reach the array |
| Arrays.NbtByteArray.Clone | nbt-core/src/main/java/org/machinemc/nbt/NBTByteArray.java:49-52 | a fresh array with a fresh buffer, equal to the original |
| Arrays.NbtByteArray.UnmodifiableView | nbt-core/src/main/java/org/machinemc/nbt/NBTArray.java:27-48 | a view over the same buffer whose element type is BYTE_ARRAY, unlike the array's own |
| Arrays.NbtByteArray.Iterator | nbt-core/src/main/java/org/machinemc/nbt/NBTArray.java:123-141 | a fresh iterator over the buffer from index 0 |
| Arrays.ByteArrayOfSize | nbt-core/src/main/java/org/machinemc/nbt/NBTByteArray.java:26-28 | a zero-filled array of the size, or NegativeArraySizeException |
| Arrays.ByteArrayOfBoxed | nbt-core/src/main/java/org/machinemc/nbt/NBTByteArray.java:16-18 | unboxed element by element; a null element throws NullPointerException |
| Arrays.NbtIntArray.constructor | nbt-core/src/main/java/org/machinemc/nbt/NBTIntArray.java:24-26 | the caller's array is stored without copying |
| Arrays.NbtIntArray.ArrayTag | nbt-core/src/main/java/org/machinemc/nbt/NBTIntArray.java:28-31 | the tag is INT_ARRAY |
| Arrays.NbtIntArray.ElementType | nbt-core/src/main/java/org/machinemc/nbt/NBTIntArray.java:68-71 | the element type is INT |
| Arrays.NbtIntArray.Size | nbt-core/src/main/java/org/machinemc/nbt/NBTIntArray.java:53-56 | the number of ints held |
| Arrays.NbtIntArray.Get | nbt-core/src/main/java/org/machinemc/nbt/NBTIntArray.java:58-61 | the int at the index, or IndexOutOfBounds outside the array |
| Arrays.NbtIntArray.Set | nbt-core/src/main/java/org/machinemc/nbt/NBTIntArray.java:63-66 | a null element throws NullPointerException, then an out-of-range index IndexOutOfBounds; otherwise exactly one slot changes |
| Arrays.NbtIntArray.Revert | nbt-core/src/main/java/org/machinemc/nbt/NBTIntArray.java:33-36 | a fresh copy of the contents |
| Arrays.NbtIntArray.Clone | nbt-core/src/main/java/org/machinemc/nbt/NBTIntArray.java:43-46 | a fresh array with a fresh buffer, equal to the original |
| Arrays.NbtIntArray.UnmodifiableView | nbt-core/src/main/java/org/machinemc/nbt/NBTArray.java:27-48 | a view over the same buffer whose element type is INT_ARRAY |
| Arrays.NbtIntArray.Iterator | nbt-core/src/main/java/org/machinemc/nbt/NBTArray.java:123-141 | a fresh iterator over the buffer from index 0 |
| Arrays.IntArrayOfSize | nbt-core/src/main/java/org/machinemc/nbt/NBTIntArray.java:20-22 | a zero-filled array of the size, or NegativeArraySizeException |
| Arrays.IntArrayOfBoxed | nbt-core/src/main/java/org/machinemc/nbt/NBTIntArray.java:16-18 | unboxed element by element; a null element throws NullPointerException |
| Arrays.NbtLongArray.constructor | src/main/java/org/machinemc/nbt/NBTLongArray.java:24-26 | the caller's array is stored without copying |
| Arrays.NbtLongArray.ArrayTag | src/main/java/org/machinemc/nbt/NBTLongArray.java:28-31 | the tag is LONG_ARRAY |
| Arrays.NbtLongArray.ElementType | src/main/java/org/machinemc/nbt/NBTLongArray.java:68-71 | the element type is LONG |
| Arrays.NbtLongArray.Size | src/main/java/org/machinemc/nbt/NBTLongArray.java:53-56 | the number of longs held |
| Arrays.NbtLongArray.Get | src/main/java/org/machinemc/nbt/NBTLongArray.java:58-61 | the long at the index, or IndexOutOfBounds outside the array |
| Arrays.NbtLongArray.Set | src/main/java/org/machinemc/nbt/NBTLongArray.java:63-66 | a null element throws NullPointerException, then an out-of-range index IndexOutOfBounds; otherwise exactly one slot changes |
| Arrays.NbtLongArray.Revert | src/main/java/org/machinemc/nbt/NBTLongArray.java:33-36 | a fresh copy of the contents |
| Arrays.NbtLongArray.Clone | src/main/java/org/machinemc/nbt/NBTLongArray.java:43-46 | a fresh array with a fresh buffer, equal to the original |
| Arrays.NbtLongArray.UnmodifiableView | nbt-core/src/main/java/org/machinemc/nbt/NBTArray.java:27-48 | a view over the same buffer whose element type is LONG_ARRAY |
| Arrays.NbtLongArray.Iterator | nbt-core/src/main/java/org/machinemc/nbt/NBTArray.java:123-141 | a fresh iterator over the buffer from index 0 |
| Arrays.LongArrayOfSize | src/main/java/org/machinemc/nbt/NBTLongArray.java:20-22 | as written: size 0 gives an empty array, any positive size NullPointerException, a negative size NegativeArraySizeException |
| Arrays.ZeroedLongArrayOfSize | src/main/java/org/machinemc/nbt/NBTLongArray.java:20-22 | corrected: a zero-filled array of the size, or NegativeArraySizeException |
| Arrays.LongArrayOfBoxed | src/main/java/org/machinemc/nbt/NBTLongArray.java:16-18 | unboxed element by element; a null element throws NullPointerException |
| Codec.Then | src/main/java/org/machinemc/nbt/io/NBTOutputStream.java:120-143 | once a write has thrown nothing more is written; otherwise the bytes concatenate |
| Codec.TagBytes | src/main/java/org/machinemc/nbt/io/NBTOutputStream.java:53-55 | one byte equal to the tag's id |
| Codec.ByteBytes | src/main/java/org/machinemc/nbt/io/NBTOutputStream.java:57-59 | one byte whose signed reading is the value |
| Codec.ReadTag | src/main/java/org/machinemc/nbt/io/NBTInputStream.java:118-120 | succeeds iff a byte is left and it is below 13, giving the tag with that id; otherwise the array index throws |
| Codec.ReadNBytes | src/main/java/org/machinemc/nbt/io/NBTInputStream.java:142-145 | a negative length throws IllegalArgument; otherwise up to that many bytes, fewer at the end of the data |
| Codec.ReadFixed | src/main/java/org/machinemc/nbt/io/NBTInputStream.java:122-125 | a fixed-width read consumes the width or stops at the end of the data |
| Codec.ByteAt | src/main/java/org/machinemc/nbt/io/NBTInputStream.java:122-125 | `read()` gives the byte, or -1 exactly at the end of the data |
| Codec.ReadPayload | src/main/java/org/machinemc/nbt/NBT.java:100-103 | a payload read by a tag's reader has that tag |
| Codec.ReadList | src/main/java/org/machinemc/nbt/io/NBTInputStream.java:96-103 | a list read consumes at least the header and yields a list |
| Codec.ReadElements | src/main/java/org/machinemc/nbt/io/NBTInputStream.java:96-103 | reading k payloads of tag t yields k values all of tag t |
| Codec.ReadCompound | src/main/java/org/machinemc/nbt/io/NBTInputStream.java:105-116 | a compound read consumes at least the END byte and yields a compound |
| Codec.ReadRoot | src/main/java/org/machinemc/nbt/io/NBTInputStream.java:28-35 | a successful root read is a compound |
| Codec.ReadInts | src/main/java/org/machinemc/nbt/io/NBTInputStream.java:80-86 | reading k ints yields k values |
| Codec.ReadLongs | src/main/java/org/machinemc/nbt/io/NBTInputStream.java:88-94 | reading k longs yields k values |
| CodecLaws.AccumulateTruncated | src/main/java/org/machinemc/nbt/io/NBTInputStream.java:49-54 | a fixed-width read that runs out of data OR-s in -1, so its result is -1 |
| CodecLaws.TruncatedReadIsMinusOne | src/main/java/org/machinemc/nbt/io/NBTInputStream.java:49-61 | a short, int or long read on exhausted data yields -1 and leaves the position at the end |
| CodecLaws.ReadFixedOfBytes | src/main/java/org/machinemc/nbt/io/NBTInputStream.java:49-54 | reading n written bytes gives the value modulo 2^(8n) |
| CodecLaws.StringRoundTrip | src/main/java/org/machinemc/nbt/io/NBTInputStream.java:71-74 | a well-formed string that is ASCII and shorter than 0x8000 characters reads back exactly and consumes all its bytes |
| CodecLaws.NonAsciiStringReadShort | src/main/java/org/machinemc/nbt/io/NBTInputStream.java:71-74 | for non-ASCII text the prefix is the UTF-16 count, so reading stops before the end of the written bytes |
| CodecLaws.LongStringRejected | src/main/java/org/machinemc/nbt/io/NBTInputStream.java:71-74 | a UTF-16 count from 0x8000 to 0xFFFF reads back as a negative length and throws IllegalArgument |
| CodecLaws.PayloadRoundTrip | src/main/java/org/machinemc/nbt/io/NBTOutputStream.java:49-143 | writing any well-formed encodable value never throws, and reading the bytes back with its tag gives its canonical form, consuming exactly the written bytes |
| CodecLaws.ByteRoundTrip | src/main/java/org/machinemc/nbt/io/NBTInputStream.java:41-43 | a byte reads back unchanged |
| CodecLaws.ShortRoundTrip | src/main/java/org/machinemc/nbt/io/NBTInputStream.java:45-47 | a short reads back unchanged |
| CodecLaws.IntRoundTrip | src/main/java/org/machinemc/nbt/io/NBTInputStream.java:49-54 | an int reads back unchanged |
| CodecLaws.LongRoundTrip | src/main/java/org/machinemc/nbt/io/NBTInputStream.java:56-61 | a long reads back unchanged |
| CodecLaws.FloatRoundTrip | src/main/java/org/machinemc/nbt/io/NBTInputStream.java:63-65 | a float's bit pattern reads back unchanged |
| CodecLaws.DoubleRoundTrip | src/main/java/org/machinemc/nbt/io/NBTInputStream.java:67-69 | a double's bit pattern reads back unchanged |
| CodecLaws.StrRoundTrip | src/main/java/org/machinemc/nbt/io/NBTInputStream.java:71-74 | a String value reads back unchanged |
| CodecLaws.ByteArrayRoundTrip | src/main/java/org/machinemc/nbt/io/NBTInputStream.java:76-78 | a byte array reads back unchanged |
| CodecLaws.IntArrayRoundTrip | src/main/java/org/machinemc/nbt/io/NBTInputStream.java:80-86 | an int array reads back unchanged |
| CodecLaws.LongArrayRoundTrip | src/main/java/org/machinemc/nbt/io/NBTInputStream.java:88-94 | a long array reads back unchanged |
| CodecLaws.ListReadsBack | src/main/java/org/machinemc/nbt/io/NBTInputStream.java:96-103 | a written list reads back as its canonical form |
| CodecLaws.CompoundReadsBack | src/main/java/org/machinemc/nbt/io/NBTInputStream.java:105-116 | a written compound reads back with the same entries, for any key order |
| CodecLaws.PayloadNeverThrows | src/main/java/org/machinemc/nbt/io/NBTOutputStream.java:49-143 | writing a well-formed value never throws |
| CodecLaws.RootRoundTrip | src/main/java/org/machinemc/nbt/io/NBTOutputStream.java:25-41 | a root compound written with or without a name reads back as its canonical form, consuming every byte |
| CodecLaws.NonCompoundRootRejected | src/main/java/org/machinemc/nbt/io/NBTInputStream.java:28-35 | a root whose first tag is not COMPOUND throws NBTException |
| CodecLaws.ListCountCases | src/main/java/org/machinemc/nbt/io/NBTInputStream.java:96-103 | a count of 0 or less gives an empty list of the declared type; tag END with a positive count throws |
| CodecLaws.RepeatedNameKeepsLast | src/main/java/org/machinemc/nbt/io/NBTInputStream.java:105-116 | two entries named `k` read as a compound holding only the second value |
| CodecLaws.RepeatedNameOverwrites | src/main/java/org/machinemc/nbt/io/NBTInputStream.java:105-116 | for any data, a second entry with the same name replaces the first one's value |
| OutputStreams.NbtOutputStream.constructor | src/main/java/org/machinemc/nbt/io/NBTOutputStream.java:21-23 | a new stream has written nothing |
| OutputStreams.NbtOutputStream.Write | src/main/java/org/machinemc/nbt/io/NBTOutputStream.java:149-152 | appends the low 8 bits of the argument |
| OutputStreams.NbtOutputStream.WriteBytes | src/main/java/org/machinemc/nbt/io/NBTOutputStream.java:154-157 | appends the bytes |
| OutputStreams.NbtOutputStream.WriteTag | src/main/java/org/machinemc/nbt/io/NBTOutputStream.java:53-55 | appends the tag's id byte |
| OutputStreams.NbtOutputStream.WriteEnd | src/main/java/org/machinemc/nbt/io/NBTOutputStream.java:145-147 | appends the byte 0 |
| OutputStreams.NbtOutputStream.WriteByte | src/main/java/org/machinemc/nbt/io/NBTOutputStream.java:57-59 | appends one byte |
| OutputStreams.NbtOutputStream.WriteShort | src/main/java/org/machinemc/nbt/io/NBTOutputStream.java:61-64 | appends the 2 big-endian bytes of the value |
| OutputStreams.NbtOutputStream.WriteInt | src/main/java/org/machinemc/nbt/io/NBTOutputStream.java:66-69 | appends the 4 big-endian bytes of the value |
| OutputStreams.NbtOutputStream.WriteLong | src/main/java/org/machinemc/nbt/io/NBTOutputStream.java:71-74 | appends the 8 big-endian bytes of the value |
| OutputStreams.NbtOutputStream.WriteFloat | src/main/java/org/machinemc/nbt/io/NBTOutputStream.java:76-78 | appends the 4 bytes of the float's bit pattern |
| OutputStreams.NbtOutputStream.WriteDouble | src/main/java/org/machinemc/nbt/io/NBTOutputStream.java:80-82 | appends the 8 bytes of the double's bit pattern |
| OutputStreams.NbtOutputStream.WriteString | src/main/java/org/machinemc/nbt/io/NBTOutputStream.java:84-89 | appends the 2-byte UTF-16 count and the UTF-8 bytes; null writes a zero prefix only |
| OutputStreams.NbtOutputStream.WriteByteArray | src/main/java/org/machinemc/nbt/io/NBTOutputStream.java:91-98 | appends the 4-byte count and the bytes; null writes count 0 only |
| OutputStreams.NbtOutputStream.WriteIntArray | src/main/java/org/machinemc/nbt/io/NBTOutputStream.java:100-108 | appends the 4-byte count and 4 bytes per element; null writes count 0 only |
| OutputStreams.NbtOutputStream.WriteLongArray | src/main/java/org/machinemc/nbt/io/NBTOutputStream.java:110-118 | appends the 4-byte count and 8 bytes per element; null writes count 0 only |
| OutputStreams.NbtOutputStream.WritePayload | src/main/java/org/machinemc/nbt/io/NBTOutputStream.java:49-51 | appends the value's payload encoding and throws exactly what that encoding throws |
| OutputStreams.NbtOutputStream.WriteList | src/main/java/org/machinemc/nbt/io/NBTOutputStream.java:120-132 | appends the element type that re-adding the elements to a fresh list settles on (END for an empty list, INT for `[End, Int]`), the count and the payloads; elements of two different non-END tags throw NBTException before anything is written; null writes END and 0 |
| OutputStreams.NbtOutputStream.WriteCompound | src/main/java/org/machinemc/nbt/io/NBTOutputStream.java:134-143 | appends one tag, name and payload per entry in the map's order, then one END byte |
| OutputStreams.NbtOutputStream.WriteEntries | src/main/java/org/machinemc/nbt/io/NBTOutputStream.java:136-142 | appends the entries in the map's order |
| OutputStreams.NbtOutputStream.WriteEntry | src/main/java/org/machinemc/nbt/io/NBTOutputStream.java:137-141 | appends the entry's tag, its name and its payload |
| OutputStreams.NbtOutputStream.WriteObject | src/main/java/org/machinemc/nbt/io/NBTOutputStream.java:43-47 | converts first; a conversion to null throws IllegalArgumentException with nothing written |
| OutputStreams.NbtOutputStream.WriteRootCompound | src/main/java/org/machinemc/nbt/io/NBTOutputStream.java:29-41 | a null compound writes one END byte; otherwise COMPOUND, the name when given, and the payload |
| OutputStreams.NbtOutputStream.WriteUnnamedRoot | src/main/java/org/machinemc/nbt/io/NBTOutputStream.java:25-27 | the one-argument form writes the root under the name `""` |
| OutputStreams.ThenAccumulates | src/main/java/org/machinemc/nbt/io/NBTOutputStream.java:134-143 | writing stops at the first entry that throws, keeping what was written before |
| OutputStreams.EntriesStep | src/main/java/org/machinemc/nbt/io/NBTOutputStream.java:136-142 | each entry is its tag, name and payload followed by the remaining entries |
| OutputStreams.ShiftedByte | src/main/java/org/machinemc/nbt/io/NBTOutputStream.java:66-74 | the shift-and-mask in the write loops yields the big-endian byte |
| InputStreams.Peek | src/main/java/org/machinemc/nbt/io/NBTInputStream.java:192-198 | the sniff looks at the first two bytes, or fewer when the data is shorter |
| InputStreams.GzipSniff | src/main/java/org/machinemc/nbt/io/NBTInputStream.java:15-16 | the peeked bytes are 0x1F 0x8B iff the data starts with the gzip magic |
| InputStreams.WrittenRootIsNotGzip | src/main/java/org/machinemc/nbt/io/NBTInputStream.java:192-198 | a root written by the output stream never starts with the gzip magic, so it is read back unchanged |
| InputStreams.ElementsCons | src/main/java/org/machinemc/nbt/io/NBTInputStream.java:96-103 | the list loop stops at the first failing payload, otherwise it reads on |
| InputStreams.IntArrayAfterCount | src/main/java/org/machinemc/nbt/io/NBTInputStream.java:80-86 | a negative count throws NegativeArraySizeException; otherwise that many ints follow |
| InputStreams.LongArrayAfterCount | src/main/java/org/machinemc/nbt/io/NBTInputStream.java:88-94 | a negative count throws NegativeArraySizeException; otherwise that many longs follow |
| InputStreams.ListAfterCount | src/main/java/org/machinemc/nbt/io/NBTInputStream.java:96-103 | after the tag and count, max(count, 0) payloads of that tag are read |
| InputStreams.NbtInputStream.constructor | src/main/java/org/machinemc/nbt/io/NBTInputStream.java:20-22 | the stream starts at the first byte of its data |
| InputStreams.NbtInputStream.ReadNext | src/main/java/org/machinemc/nbt/io/NBTInputStream.java:122-125 | the next byte, or -1 at the end of the data |
| InputStreams.NbtInputStream.ReadNBytes | src/main/java/org/machinemc/nbt/io/NBTInputStream.java:142-145 | agrees with the byte-level reading of up to n bytes |
| InputStreams.NbtInputStream.ReadTag | src/main/java/org/machinemc/nbt/io/NBTInputStream.java:118-120 | agrees with the tag reading function |
| InputStreams.NbtInputStream.ReadByte | src/main/java/org/machinemc/nbt/io/NBTInputStream.java:41-43 | agrees with the byte reading function |
| InputStreams.NbtInputStream.ReadShort | src/main/java/org/machinemc/nbt/io/NBTInputStream.java:45-47 | agrees with the short reading function |
| InputStreams.NbtInputStream.ReadInt | src/main/java/org/machinemc/nbt/io/NBTInputStream.java:49-54 | agrees with the int reading function, -1 on exhausted data |
| InputStreams.NbtInputStream.ReadLong | src/main/java/org/machinemc/nbt/io/NBTInputStream.java:56-61 | agrees with the long reading function, -1 on exhausted data |
| InputStreams.NbtInputStream.ReadFloat | src/main/java/org/machinemc/nbt/io/NBTInputStream.java:63-65 | agrees with the float reading function |
| InputStreams.NbtInputStream.ReadDouble | src/main/java/org/machinemc/nbt/io/NBTInputStream.java:67-69 | agrees with the double reading function |
| InputStreams.NbtInputStream.ReadString | src/main/java/org/machinemc/nbt/io/NBTInputStream.java:71-74 | agrees with the string reading function (signed prefix, UTF-8 body) |
| InputStreams.NbtInputStream.ReadByteArray | src/main/java/org/machinemc/nbt/io/NBTInputStream.java:76-78 | agrees with the byte array reading function |
| InputStreams.NbtInputStream.ReadIntArray | src/main/java/org/machinemc/nbt/io/NBTInputStream.java:80-86 | agrees with the int array reading function |
| InputStreams.NbtInputStream.ReadLongArray | src/main/java/org/machinemc/nbt/io/NBTInputStream.java:88-94 | agrees with the long array reading function |
| InputStreams.NbtInputStream.ReadPayload | src/main/java/org/machinemc/nbt/io/NBTInputStream.java:37-39 | dispatches on the tag and agrees with the payload reading function |
| InputStreams.NbtInputStream.ReadList | src/main/java/org/machinemc/nbt/io/NBTInputStream.java:96-103 | agrees with the list reading function |
| InputStreams.NbtInputStream.ReadItems | src/main/java/org/machinemc/nbt/io/NBTInputStream.java:99-102 | reads max(n, 0) payloads, stopping at the first that throws |
| InputStreams.NbtInputStream.ReadCompound | src/main/java/org/machinemc/nbt/io/NBTInputStream.java:105-116 | agrees with the compound reading function, entries read until the first END |
| InputStreams.NbtInputStream.UnzipIfNecessary | src/main/java/org/machinemc/nbt/io/NBTInputStream.java:192-198 | switches to the inflated data iff the remaining bytes start with the gzip magic, keeping the peeked bytes |
| InputStreams.NbtInputStream.ReadRootCompound | src/main/java/org/machinemc/nbt/io/NBTInputStream.java:28-35 | agrees with the root reading function after the gzip sniff |
| InputStreams.NbtInputStream.ReadNamedRoot | src/main/java/org/machinemc/nbt/io/NBTInputStream.java:24-26 | the no-argument form reads a root with a name |
| StringVisitor.NbtStringVisitor.constructor | src/main/java/org/machinemc/nbt/visitor/NBTStringVisitor.java:11 | a new visitor has an empty builder |
| StringVisitor.NbtStringVisitor.VisitNbt | src/main/java/org/machinemc/nbt/visitor/NBTStringVisitor.java:13-16 | appends the rendering of the value to the builder and returns the whole builder |
| StringVisitor.NbtStringVisitor.Visit | src/main/java/org/machinemc/nbt/visitor/NBTStringVisitor.java:18-51 | appends the rendering of the value: suffixes b, s, L, f, d, bare ints, quoted strings, End as nothing |
| StringVisitor.NbtStringVisitor.VisitByteArray | src/main/java/org/machinemc/nbt/visitor/NBTStringVisitor.java:53-66 | appends `[B;`, the elements each followed by B, comma-joined, and `]` |
| StringVisitor.NbtStringVisitor.VisitIntArray | src/main/java/org/machinemc/nbt/visitor/NBTStringVisitor.java:68-81 | appends `[I;`, the bare elements comma-joined, and `]` |
| StringVisitor.NbtStringVisitor.VisitLongArray | src/main/java/org/machinemc/nbt/visitor/NBTStringVisitor.java:83-96 | appends `[L;`, the elements each followed by L, comma-joined, and `]` |
| StringVisitor.NbtStringVisitor.VisitList | src/main/java/org/machinemc/nbt/visitor/NBTStringVisitor.java:98-110 | appends `[`, the comma-joined element renderings and `]` |
| StringVisitor.NbtStringVisitor.VisitCompound | src/main/java/org/machinemc/nbt/visitor/NBTStringVisitor.java:112-128 | appends `{`, the comma-joined `key:value` parts in ascending key order and `}` |
| StringVisitor.NbtStringVisitor.EntryText | src/main/java/org/machinemc/nbt/visitor/NBTStringVisitor.java:118-126 | one entry renders as its key text, `:`, and its value's rendering |
| StringVisitor.NbtStringVisitor.AppendNested | src/main/java/org/machinemc/nbt/visitor/NBTStringVisitor.java:13-16 | a nested value is rendered into the same builder |
| StringVisitor.NbtStringVisitor.Clear | src/main/java/org/machinemc/nbt/visitor/NBTStringVisitor.java:138-140 | an empty builder throws IndexOutOfBounds; otherwise only the last character is kept |
| StringVisitor.KeyList | src/main/java/org/machinemc/nbt/visitor/NBTStringVisitor.java:115-116 | the list of keys holds each key of the map exactly once |
| StringVisitor.IsSimpleValue | src/main/java/org/machinemc/nbt/visitor/NBTStringVisitor.java:146-158 | true iff the key is non-empty and every character is a letter, digit, or one of `_ - . +` |
| StringVisitor.HandleEscape | src/main/java/org/machinemc/nbt/visitor/NBTStringVisitor.java:142-144 | a simple key is left bare; any other key is quoted with matching quotes |
| StringVisitor.ListText | src/main/java/org/machinemc/nbt/visitor/NBTStringVisitor.java:98-110 | the list loop's output is the list's rendering |
| StringVisitor.CompoundText | src/main/java/org/machinemc/nbt/visitor/NBTStringVisitor.java:112-128 | the compound loop's output is the compound's rendering |
| StringVisitor.CompoundPartAt | src/main/java/org/machinemc/nbt/visitor/NBTStringVisitor.java:118-126 | part i renders the i-th key in sorted order with its value |
| StringVisitor.KeyLeftBare | src/main/java/org/machinemc/nbt/visitor/NBTStringVisitor.java:142-158 | a key renders as itself iff it is simple; otherwise at least two quote characters are added |
| StringVisitor.EntryOrderIrrelevant | src/main/java/org/machinemc/nbt/visitor/NBTStringVisitor.java:115-116 | sorting the keys in any order they are listed gives the same sorted sequence, so the output does not depend on insertion order |
| Ordering.RankOrdersUnits | src/main/java/org/machinemc/nbt/visitor/NBTStringVisitor.java:115-116 | comparing characters by rank agrees with comparing their UTF-16 code units, as String.compareTo does |
| Ordering.BeforeIrreflexive | src/main/java/org/machinemc/nbt/visitor/NBTStringVisitor.java:115-116 | no key sorts before itself |
| Ordering.BeforeTransitive | src/main/java/org/machinemc/nbt/visitor/NBTStringVisitor.java:115-116 | the key order is transitive |
| Ordering.BeforeTotal | src/main/java/org/machinemc/nbt/visitor/NBTStringVisitor.java:115-116 | of two different keys one sorts before the other |
| Ordering.Insert | src/main/java/org/machinemc/nbt/visitor/NBTStringVisitor.java:115-116 | inserting a key into a sorted sequence keeps it sorted and adds exactly that key |
| Ordering.Sort | src/main/java/org/machinemc/nbt/visitor/NBTStringVisitor.java:115-116 | the sorted keys are sorted and a permutation of the input |
| Ordering.SortedUnique | src/main/java/org/machinemc/nbt/visitor/NBTStringVisitor.java:115-116 | two sorted permutations of the same keys are identical |
| Ordering.SortIgnoresOrder | src/main/java/org/machinemc/nbt/visitor/NBTStringVisitor.java:115-116 | sorting two permutations of the same keys gives the same result |
| Ordering.SortedKeysOfAnyOrder | src/main/java/org/machinemc/nbt/visitor/NBTStringVisitor.java:115-116 | sorting any listing of a key set gives the one sorted sequence of that set |
| Readers.Scan | nbt-parser/src/main/java/org/machinemc/nbt/parser/StringReader.java:27-35 | the scan stops at the first character satisfying the predicate, runs out at the end, or reports an index outside the input |
| Readers.Trim | nbt-parser/src/main/java/org/machinemc/nbt/parser/NBTParser.java:20-22 | the result is a contiguous slice of the input, every character removed before or after it is at most U+0020, and a nonempty result starts and ends above U+0020 |
| Readers.StringReader.constructor | nbt-parser/src/main/java/org/machinemc/nbt/parser/StringReader.java:13-15 | the reader covers the whole input with the cursor at 0 |
| Readers.StringReader.Slice | nbt-parser/src/main/java/org/machinemc/nbt/parser/StringReader.java:17-21 | the reader covers `start..end` but its cursor starts at 0 |
| Readers.StringReader.Peek | nbt-parser/src/main/java/org/machinemc/nbt/parser/StringReader.java:51-58 | the character at cursor plus offset, or IndexOutOfBounds outside the input |
| Readers.StringReader.Remaining | nbt-parser/src/main/java/org/machinemc/nbt/parser/StringReader.java:93-95 | `end - cursor`: exactly that many characters can be read |
| Readers.StringReader.Read | nbt-parser/src/main/java/org/machinemc/nbt/parser/StringReader.java:60-62 | returns the character at the cursor and advances by one |
| Readers.StringReader.Skip | nbt-parser/src/main/java/org/machinemc/nbt/parser/StringReader.java:64-66 | advances by one |
| Readers.StringReader.SetCursor | nbt-parser/src/main/java/org/machinemc/nbt/parser/StringReader.java:105-107 | moves the cursor to the position given |
| Readers.StringReader.Reset | nbt-parser/src/main/java/org/machinemc/nbt/parser/StringReader.java:89-91 | moves the cursor back to `start` |
| Readers.StringReader.ReadUntil | nbt-parser/src/main/java/org/machinemc/nbt/parser/StringReader.java:27-35 | returns the characters before the first stop character; when input runs out it returns `""` though the cursor has moved to the end |
| Readers.StringReader.SkipWhitespace | nbt-parser/src/main/java/org/machinemc/nbt/parser/StringReader.java:68-70 | moves the cursor to the first non-whitespace character or to the end |
| Readers.StringReader.EatsFrom | nbt-parser/src/main/java/org/machinemc/nbt/parser/StringReader.java:77-87 | after whitespace the next character is the one expected |
| Readers.StringReader.EatSafely | nbt-parser/src/main/java/org/machinemc/nbt/parser/StringReader.java:77-87 | skips whitespace, then consumes one character and returns true iff it is the one expected |
| Readers.StringReader.Eat | nbt-parser/src/main/java/org/machinemc/nbt/parser/StringReader.java:72-75 | throws EXPECTED_SYMBOL exactly when eatSafely would return false |
| Readers.StringReader.Finish | nbt-parser/src/main/java/org/machinemc/nbt/parser/StringReader.java:37-41 | returns the rest of the input up to `end` and moves the cursor there |
| Readers.StringReader.Substring | nbt-parser/src/main/java/org/machinemc/nbt/parser/StringReader.java:109-111 | a fresh reader over the same input limited to `start..end`, cursor 0 |
| Readers.StringReader.Clone | nbt-parser/src/main/java/org/machinemc/nbt/parser/StringReader.java:113-120 | a fresh reader with the same input, bounds and cursor |
| Readers.SkipWhitespaceForward | nbt-parser/src/main/java/org/machinemc/nbt/parser/StringReader.java:68-70 | the cursor never moves backwards and passes only whitespace |
| Readers.SkipWhitespaceIdempotent | nbt-parser/src/main/java/org/machinemc/nbt/parser/StringReader.java:68-70 | skipping whitespace twice is the same as once |
| TextGrammar.Ws | nbt-parser/src/main/java/org/machinemc/nbt/parser/StringReader.java:68-70 | the first non-whitespace position at or after the cursor |
| TextGrammar.EatAt | nbt-parser/src/main/java/org/machinemc/nbt/parser/NBTParser.java:228-231 | succeeds iff the next non-whitespace character is the expected one, else EXPECTED_SYMBOL at that position |
| TextGrammar.SeparatorAt | nbt-parser/src/main/java/org/machinemc/nbt/parser/NBTParser.java:219-226 | a separator iff the next non-whitespace character is a comma, whitespace after it skipped |
| TextGrammar.CloseAt | nbt-parser/src/main/java/org/machinemc/nbt/parser/NBTParser.java:206-217 | a successful close consumes at least the closing character |
| TextGrammar.QuotedFrom | nbt-parser/src/main/java/org/machinemc/nbt/parser/NBTParser.java:82-106 | a quoted string ends after its quote; an error is reported inside the string |
| TextGrammar.KeyAt | nbt-parser/src/main/java/org/machinemc/nbt/parser/NBTParser.java:32-37 | no input left is EXPECTED_KEY at the end |
| TextGrammar.NumberOf | nbt-parser/src/main/java/org/machinemc/nbt/parser/NBTParser.java:113-133 | a suffix letter picks Byte, Short, Long, Float or Double; with none the number is an Int without `.` and a Double with one |
| TextGrammar.NumberAt | nbt-parser/src/main/java/org/machinemc/nbt/parser/NBTParser.java:113-133 | a number read consumes at least one character |
| TextGrammar.SimpleAt | nbt-parser/src/main/java/org/machinemc/nbt/parser/NBTParser.java:52-71 | a simple value is never End and consumes at least one character |
| TextGrammar.ValueAt | nbt-parser/src/main/java/org/machinemc/nbt/parser/NBTParser.java:39-50 | a value is never End; no input left is EXPECTED_VALUE |
| TextGrammar.ListAt | nbt-parser/src/main/java/org/machinemc/nbt/parser/NBTParser.java:184-194 | a list read yields a list |
| TextGrammar.CompoundAt | nbt-parser/src/main/java/org/machinemc/nbt/parser/NBTParser.java:196-204 | a compound read yields a compound |
| TextGrammar.ArrayAt | nbt-parser/src/main/java/org/machinemc/nbt/parser/NBTParser.java:135-168 | a typed array read yields a byte, int or long array |
| TextGrammar.QuotedAt | nbt-parser/src/main/java/org/machinemc/nbt/parser/NBTParser.java:82-106 | a quoted string consumes at least its two quotes |
| TextGrammar.UnquotedAt | nbt-parser/src/main/java/org/machinemc/nbt/parser/NBTParser.java:108-111 | an unquoted string read stays within the input (it may be empty) |
| TextGrammar.StringAt | nbt-parser/src/main/java/org/machinemc/nbt/parser/NBTParser.java:73-80 | a string read, quoted or not, stays within the input |
| TextGrammar.ListItems | nbt-parser/src/main/java/org/machinemc/nbt/parser/NBTParser.java:206-217 | the list loop yields a list and consumes its closing `]` |
| TextGrammar.Entries | nbt-parser/src/main/java/org/machinemc/nbt/parser/NBTParser.java:206-217 | the compound loop yields a compound and consumes its closing `}` |
| TextGrammar.ArrayItems | nbt-parser/src/main/java/org/machinemc/nbt/parser/NBTParser.java:146-166 | the array element loop yields a typed array and consumes its closing `]` |
| TextGrammar.ByteValues | nbt-parser/src/main/java/org/machinemc/nbt/parser/NBTParser.java:170-182 | the bytes of an array in order |
| TextGrammar.IntValues | nbt-parser/src/main/java/org/machinemc/nbt/parser/NBTParser.java:170-182 | the ints of an array in order |
| TextGrammar.LongValues | nbt-parser/src/main/java/org/machinemc/nbt/parser/NBTParser.java:170-182 | the longs of an array in order |
| TextGrammar.ParseText | nbt-parser/src/main/java/org/machinemc/nbt/parser/NBTParser.java:245-247 | a successful parse is a compound |
| TextParser.NbtParser.FromString | nbt-parser/src/main/java/org/machinemc/nbt/parser/NBTParser.java:20-22 | the parser reads the trimmed input from cursor 0 |
| TextParser.NbtParser.constructor | nbt-parser/src/main/java/org/machinemc/nbt/parser/NBTParser.java:24-26 | the parser reads the reader given |
| TextParser.NbtParser.Parse | nbt-parser/src/main/java/org/machinemc/nbt/parser/NBTParser.java:28-30 | the outcome and the cursor agree with the compound grammar; success records the compound |
| TextParser.NbtParser.Eat | nbt-parser/src/main/java/org/machinemc/nbt/parser/NBTParser.java:228-231 | agrees with EatAt, leaving the cursor on the offending character on failure |
| TextParser.NbtParser.HasElementSeparator | nbt-parser/src/main/java/org/machinemc/nbt/parser/NBTParser.java:219-226 | agrees with SeparatorAt, outcome and cursor |
| TextParser.NbtParser.ParseQuotedString | nbt-parser/src/main/java/org/machinemc/nbt/parser/NBTParser.java:82-106 | agrees with the quoted string grammar |
| TextParser.NbtParser.ParseUnquotedString | nbt-parser/src/main/java/org/machinemc/nbt/parser/NBTParser.java:108-111 | agrees with the unquoted string grammar |
| TextParser.NbtParser.ParseString | nbt-parser/src/main/java/org/machinemc/nbt/parser/NBTParser.java:73-80 | agrees with the string grammar |
| TextParser.NbtParser.ParseKey | nbt-parser/src/main/java/org/machinemc/nbt/parser/NBTParser.java:32-37 | agrees with the key grammar |
| TextParser.NbtParser.ParseNumber | nbt-parser/src/main/java/org/machinemc/nbt/parser/NBTParser.java:113-133 | agrees with the number grammar |
| TextParser.NbtParser.ParseSimpleValue | nbt-parser/src/main/java/org/machinemc/nbt/parser/NBTParser.java:52-71 | agrees with the simple value grammar, including the fallback to an unquoted string |
| TextParser.NbtParser.ParseValue | nbt-parser/src/main/java/org/machinemc/nbt/parser/NBTParser.java:39-50 | agrees with the value grammar |
| TextParser.NbtParser.ParseList | nbt-parser/src/main/java/org/machinemc/nbt/parser/NBTParser.java:184-194 | agrees with the list grammar |
| TextParser.NbtParser.ParseCompound | nbt-parser/src/main/java/org/machinemc/nbt/parser/NBTParser.java:196-204 | agrees with the compound grammar |
| TextParser.NbtParser.ParseArray | nbt-parser/src/main/java/org/machinemc/nbt/parser/NBTParser.java:135-168 | agrees with the typed array grammar |
| TextParser.NbtParser.ParseArrayElements | nbt-parser/src/main/java/org/machinemc/nbt/parser/NBTParser.java:146-166 | agrees with the array element loop |
| TextParser.ValueDispatch | nbt-parser/src/main/java/org/machinemc/nbt/parser/NBTParser.java:39-50 | `[` with `;` two further on is a typed array, another `[` a list, `{` a compound, anything else a simple value; no input left is EXPECTED_VALUE |
| TextParser.ArrayStart | nbt-parser/src/main/java/org/machinemc/nbt/parser/NBTParser.java:135-145 | a valid type character is followed by the element loop after the `;` |
| TextParser.ArrayStep | nbt-parser/src/main/java/org/machinemc/nbt/parser/NBTParser.java:146-166 | each element must have the array's element tag, else ARRAY_MIXED at its start; a comma continues, otherwise `]` closes |
| TextParser.ParseNbt | nbt-parser/src/main/java/org/machinemc/nbt/parser/NBTParser.java:245-247 | parsing text yields the grammar's compound, or the grammar's error raised against the trimmed input |
| Malformed.WithoutContext | nbt-parser/src/main/java/org/machinemc/nbt/exceptions/MalformedNBTException.java:28-30 | the message-only exception has no context, and its message is the raw message |
| Malformed.Raised | nbt-parser/src/main/java/org/machinemc/nbt/exceptions/MalformedNBTException.java:32-34 | the reader constructor captures the reader's input and cursor |
| Malformed.Clamped | nbt-parser/src/main/java/org/machinemc/nbt/exceptions/MalformedNBTException.java:55 | the window end is the cursor clamped to the input length |
| Malformed.GetContext | nbt-parser/src/main/java/org/machinemc/nbt/exceptions/MalformedNBTException.java:52-61 | null iff there is no input or the cursor is negative; a negative window width throws |
| Malformed.GetMessage | nbt-parser/src/main/java/org/machinemc/nbt/exceptions/MalformedNBTException.java:43-50 | the raw message, extended exactly when there is a context |
| Malformed.ContextWindow | nbt-parser/src/main/java/org/machinemc/nbt/exceptions/MalformedNBTException.java:52-61 | the context is `...` iff the clamped cursor exceeds the width, then up to width characters before the cursor, then the marker |
| Malformed.ContextBounded | nbt-parser/src/main/java/org/machinemc/nbt/exceptions/MalformedNBTException.java:58-59 | the context ends with the marker and is at most width plus the marker plus three characters long |
| Malformed.MessageWithContext | nbt-parser/src/main/java/org/machinemc/nbt/exceptions/MalformedNBTException.java:43-50 | the message is the raw message, ` at position `, the cursor, `: ` and the context |
| Decimals.Digits | src/main/java/org/machinemc/nbt/visitor/NBTStringVisitor.java:33-36 | a decimal numeral has no leading zero unless it is 0 |
| Decimals.ParseInteger | nbt-parser/src/main/java/org/machinemc/nbt/parser/NBTParser.java:113-133 | a parsed integer lies in the range of its type |
| Decimals.ValueOfDigits | nbt-parser/src/main/java/org/machinemc/nbt/parser/NBTParser.java:113-133 | reading back the digits of a number gives the number |
| Decimals.ParseIntText | nbt-parser/src/main/java/org/machinemc/nbt/parser/NBTParser.java:113-133 | the decimal text of any in-range integer parses back to it |
| Decimals.IntTextInjective | src/main/java/org/machinemc/nbt/visitor/NBTStringVisitor.java:33-36 | two integers with the same decimal text are equal |
| Decimals.PointIsNotInteger | nbt-parser/src/main/java/org/machinemc/nbt/parser/NBTParser.java:123-131 | a numeral with a `.` is never read as an integer |
| Readers.ScanPasses | nbt-parser/src/main/java/org/machinemc/nbt/parser/StringReader.java:27-35 | every character the scan passes over fails the stop predicate |
| TextLaws.QuotedPlain | nbt-parser/src/main/java/org/machinemc/nbt/parser/NBTParser.java:82-106 | a quoted run without backslash or quote reads back as itself |
| TextLaws.EscapeRejected | nbt-parser/src/main/java/org/machinemc/nbt/parser/NBTParser.java:89 | any backslash in a quoted string makes the next character INVALID_ESCAPE |
| TextLaws.QuotedReadsBack | src/main/java/org/machinemc/nbt/NBTString.java:58-70 | text without quotes, backslashes or NUL, quoted, reads back as itself |
| TextLaws.BothQuotesUnreadable | src/main/java/org/machinemc/nbt/NBTString.java:58-70 | for example `a"b'`, which holds both quote kinds, renders as `'a"b\''`, and the parser rejects its escape with INVALID_ESCAPE at 5 |
| TextLaws.IntegerText | src/main/java/org/machinemc/nbt/visitor/NBTStringVisitor.java:23-41 | a Byte, Short, Int or Long renders as its decimal text and its suffix |
| TextLaws.IntTextNumber | nbt-parser/src/main/java/org/machinemc/nbt/parser/NBTParser.java:113-133 | the decimal text of an integer value with its suffix letter parses to that value |
| TextLaws.IntegerNumeral | nbt-parser/src/main/java/org/machinemc/nbt/parser/NBTParser.java:113-133 | an integer value's rendering is a numeral that reads back as the value |
| TextLaws.NumeralValue | nbt-parser/src/main/java/org/machinemc/nbt/parser/NBTParser.java:113-133 | such a numeral standing before `}` is read by `parseValue` as the value, up to the `}`, with no whitespace around it |
| TextLaws.SingleEntryText | src/main/java/org/machinemc/nbt/visitor/NBTStringVisitor.java:112-128 | a one-entry compound with a simple key renders as `{key:value}` |
| TextLaws.OnlyKeySorted | src/main/java/org/machinemc/nbt/visitor/NBTStringVisitor.java:115-116 | the sorted keys of a one-key map are that key |
| TextLaws.OnlyEntry | nbt-parser/src/main/java/org/machinemc/nbt/parser/NBTParser.java:196-217 | one entry followed by `}` reads as a compound of that entry |
| TextLaws.SingleEntryParses | nbt-parser/src/main/java/org/machinemc/nbt/parser/NBTParser.java:196-217 | `{key:value}` parses to the one-entry compound |
| TextLaws.SingleEntryTextParses | nbt-parser/src/main/java/org/machinemc/nbt/parser/NBTParser.java:20-30 | `{key:numeral}` followed by anything parses to the one-entry compound, trailing text ignored |
| TextLaws.SingleEntryRoundTrip | src/main/java/org/machinemc/nbt/visitor/NBTStringVisitor.java:112-128 | parsing the rendering of a one-entry compound with a simple key and an integer value gives the compound back, whatever text follows |
| TextLaws.TrimKeepsFront | nbt-parser/src/main/java/org/machinemc/nbt/parser/NBTParser.java:20-22 | trimming does not touch a front part that starts and ends with visible characters |
| CollectionLaws.FirstElementFixesType | nbt-parser/src/main/java/org/machinemc/nbt/parser/NBTParser.java:184-194 | the first list element fixes the list's element type to its own tag |
| CollectionLaws.ListMixedAtStart | nbt-parser/src/main/java/org/machinemc/nbt/parser/NBTParser.java:186-191 | an element of another tag than the fixed type is LIST_MIXED at the element's start |
| CollectionLaws.MixedListRejected | nbt-parser/src/main/java/org/machinemc/nbt/parser/NBTParser.java:184-194 | a list whose second element differs in tag from the first is rejected with LIST_MIXED at the second element |
| CollectionLaws.ArrayMixedAtStart | nbt-parser/src/main/java/org/machinemc/nbt/parser/NBTParser.java:150-156 | an element of another tag than the array's is ARRAY_MIXED at the element's start |
| CollectionLaws.ListTrailingComma | nbt-parser/src/main/java/org/machinemc/nbt/parser/NBTParser.java:206-226 | a comma before `]` is accepted and the list ends with the element before it |
| CollectionLaws.CompoundTrailingComma | nbt-parser/src/main/java/org/machinemc/nbt/parser/NBTParser.java:206-226 | a comma before `}` is accepted and the compound ends with the entry before it |
| CollectionLaws.RepeatedKeyKeepsLater | nbt-parser/src/main/java/org/machinemc/nbt/parser/NBTParser.java:196-204 | an entry rebinds its key whatever was bound to it before |
| CollectionLaws.EarlierDuplicateLost | nbt-parser/src/main/java/org/machinemc/nbt/parser/NBTParser.java:196-204 | of two consecutive entries with one key, the earlier value is lost |
| CollectionLaws.EmptyKeyAccepted | nbt-parser/src/main/java/org/machinemc/nbt/parser/NBTParser.java:32-37 | a `:` where a key should start reads as the empty key |
| Tags.Name | src/main/java/org/machinemc/nbt/NBT.java:56-72 | every tag's name is nonempty, made of capital letters and underscores, and does not start with an underscore |
| Conversion.Revert | src/main/java/org/machinemc/nbt/NBT.java:52-54 | a tree reverts to null iff it is END, never to a tree, a boolean or another object, and the reverted object's class maps back to the tree's tag |
| Conversion.SoftEquals | src/main/java/org/machinemc/nbt/NBT.java:35-39 | END is soft-equal to null only; booleans, other objects and arrays are never soft-equal; a tree of another tag is never soft-equal |
| Values.Equals | src/main/java/org/machinemc/nbt/NBTList.java:179-181 | equal values have the same tag, and a value equals itself |
| Values.Clone | src/main/java/org/machinemc/nbt/NBTList.java:69-71 | a clone keeps the tag; a non-list is returned as it is; a list keeps its items and recomputes its type from the last one, failing with NBTException as `add` does |
| Compounds.NbtCompound.ContainsKey | src/main/java/org/machinemc/nbt/NBTCompound.java:94-97 | a null key is never contained; otherwise the key is contained iff the map binds it |
| Compounds.NbtCompound.EqualsCompound | src/main/java/org/machinemc/nbt/NBTCompound.java:235-237 | equal compounds have the same key set, and compounds with equal maps are equal |
| Lists.NbtList.EqualsList | src/main/java/org/machinemc/nbt/NBTList.java:179-181 | equal lists have the same length, and lists with equal items are equal |
| Arrays.NbtByteArray.EqualsArray | nbt-core/src/main/java/org/machinemc/nbt/NBTByteArray.java:85-87 | two byte arrays are equal iff their values are equal |
| Arrays.NbtIntArray.EqualsArray | nbt-core/src/main/java/org/machinemc/nbt/NBTIntArray.java:79-81 | two int arrays are equal iff their values are equal |
| Arrays.NbtLongArray.EqualsArray | src/main/java/org/machinemc/nbt/NBTLongArray.java:79-81 | two long arrays are equal iff their values are equal |
| Arrays.ArrayIterator.HasNext | nbt-core/src/main/java/org/machinemc/nbt/NBTArray.java:131-133 | the iterator has a next element iff its index is below the array length |
| Readers.StringReader.CanRead | nbt-parser/src/main/java/org/machinemc/nbt/parser/StringReader.java:43-49 | when `length` more characters can be read, the character `length - 1` ahead can be peeked |
| Codec.IsGzip | src/main/java/org/machinemc/nbt/io/NBTInputStream.java:14-16 | a stream taken for gzip has at least two bytes, and its first byte is no tag id |
| Codec.ReadString | src/main/java/org/machinemc/nbt/io/NBTInputStream.java:71-74 | a string read stays inside the data and never moves backwards |
| Malformed.MessageOf | nbt-parser/src/main/java/org/machinemc/nbt/exceptions/MalformedNBTException.java:7-19 | every message is nonempty; a mixed list or array message starts with `Can't insert ` and the found tag's name; the offending character appears in its message |
| StringVisitor.Render | src/main/java/org/machinemc/nbt/visitor/NBTStringVisitor.java:18-128 | the text is empty iff the value is END; a compound is braced, and a list or numeric array is bracketed |
| OutputStreams.NbtOutputStream.WriteRootName | src/main/java/org/machinemc/nbt/io/NBTOutputStream.java:36 | writing the root name appends exactly the name's string bytes and never fails |
| TextGrammar.EntryAt | nbt-parser/src/main/java/org/machinemc/nbt/parser/NBTParser.java:196-204 | a compound entry read consumes at least one character and stays inside the input |
| TextRoundTrip.ValueReads | src/main/java/org/machinemc/nbt/visitor/NBTStringVisitor.java:18-128 | every value of the round-trip domain, written before a closer, reads back as itself and ends exactly after its text |
| TextRoundTrip.TextRoundTrip | nbt-parser/src/main/java/org/machinemc/nbt/parser/NBTParser.java:20-30 | parsing the text of any compound of the round-trip domain, followed by any text, gives the compound back |
| TextRoundTrip.NulUnreadable | src/main/java/org/machinemc/nbt/NBTString.java:58-70 | a NUL before the first quote character is escaped; for example the one-character string NUL is written as `"\<NUL>"`, which the parser rejects with INVALID_ESCAPE at 2 |
| TextRoundTrip.SemicolonListUnreadable | nbt-parser/src/main/java/org/machinemc/nbt/parser/NBTParser.java:137-142 | a list whose first string is `;` is written as `[";"]`, which the parser takes for a typed array and rejects with ARRAY_INVALID |
| TextRoundTrip.EmptyListTypeLost | nbt-parser/src/main/java/org/machinemc/nbt/parser/NBTParser.java:184-194 | an empty list of any element type is written as `[]`, which reads back as a list typed END |
| Codec.ReadByte | src/main/java/org/machinemc/nbt/io/NBTInputStream.java:41-43 | a byte read never moves backwards, stays inside the data and yields a BYTE |
| Codec.ReadShort | src/main/java/org/machinemc/nbt/io/NBTInputStream.java:45-47 | a short read never moves backwards, stays inside the data and yields a SHORT |
| Codec.ReadInt | src/main/java/org/machinemc/nbt/io/NBTInputStream.java:49-54 | an int read never moves backwards, stays inside the data and yields an INT |
| Codec.ReadLong | src/main/java/org/machinemc/nbt/io/NBTInputStream.java:56-61 | a long read never moves backwards, stays inside the data and yields a LONG |
| Codec.ReadFloat | src/main/java/org/machinemc/nbt/io/NBTInputStream.java:63-65 | a float read never moves backwards, stays inside the data and yields a FLOAT |
| Codec.ReadDouble | src/main/java/org/machinemc/nbt/io/NBTInputStream.java:67-69 | a double read never moves backwards, stays inside the data and yields a DOUBLE |
| Codec.ReadStr | src/main/java/org/machinemc/nbt/io/NBTInputStream.java:71-74 | a successful STRING read stays inside the data and yields a STRING |
| Codec.ReadByteArray | src/main/java/org/machinemc/nbt/io/NBTInputStream.java:76-78 | a successful byte array read stays inside the data and yields a BYTE_ARRAY |
| Codec.ReadIntArray | src/main/java/org/machinemc/nbt/io/NBTInputStream.java:80-86 | a successful int array read stays inside the data and yields an INT_ARRAY |
| Codec.ReadLongArray | src/main/java/org/machinemc/nbt/io/NBTInputStream.java:88-94 | a successful long array read stays inside the data and yields a LONG_ARRAY |
| Codec.ReadLeaf | src/main/java/org/machinemc/nbt/io/NBTInputStream.java:37-39 | a successful read of a tag holding no other values yields a value of that tag inside the data |
| Codec.ReadEntries | src/main/java/org/machinemc/nbt/io/NBTInputStream.java:105-116 | the entry loop consumes at least the END byte and yields a compound |
| Ordering.SortedKeys | src/main/java/org/machinemc/nbt/visitor/NBTStringVisitor.java:115-116 | the keys listed for rendering are sorted and hold each key of the set exactly once |
| CodecLaws.ByteCountStringBytes | src/main/java/org/machinemc/nbt/io/NBTOutputStream.java:84-89 | the corrected layout: two prefix bytes, then the text's UTF-8 bytes |
| CodecLaws.ByteCountStringRoundTrip | src/main/java/org/machinemc/nbt/io/NBTInputStream.java:71-74 | with a UTF-8 byte-count prefix, any text of under 0x8000 UTF-8 bytes, ASCII or not, reads back and consumes exactly its bytes |

## Left out

- Compounds.NbtCompound.Set: when `convert` finds no tag for a value, Java stores a null entry, so `containsKey` is true and `getNBT` returns null. The model refuses the value with a `NullEntry` failure and leaves the map unchanged, because a tree in the model has no null children.
- Compounds.OfMap: the same null entry case fails with `NullEntry` where Java stores null.
- Compounds.OfMap: Java's map may have keys of any class. It passes each key through `key + ""`, which turns the key into its `toString` text and a null key into the text `null`. The model's maps have `string` keys, so neither a null key nor a key of another class reaches this constructor.
- Compounds.NbtCompound.Clone: Java copies the map but shares the child values, so a later change to a shared child list shows in both compounds. Children are values in the model, so this aliasing is not represented. The same holds for child lists and compounds stored in an `NBTList`.
- InputStreams.NbtInputStream.UnzipIfNecessary: only the two-byte gzip magic check is modelled. Decompression is the `inflate` function parameter, and its effect on the data is not modelled.
- OutputStreams.NbtOutputStream.constructor: the `compress` flag, which wraps the sink in a `GZIPOutputStream`, is not modelled. The model's `out` is the uncompressed byte sequence.
- Utf.Encode: a Dafny `char` is a Unicode scalar value, while a Java `char` is a UTF-16 code unit. Strings holding unpaired surrogates, and their modified UTF-8 and replacement-character behaviour, are outside the model.
- Float and double values are kept as 32- and 64-bit patterns. Java's `Float.toString`/`Double.toString` and `Float.parseFloat`/`Double.parseDouble` are the function parameters `Texts` and `Floats`. Only the lexical check that decides whether a number token parses is modelled. Values.Equals therefore compares patterns, while `NBTFloat.equals` and `NBTDouble.equals` use `==`, for which NaN differs from itself and 0.0 equals -0.0; so Values.EqualsIsEquivalence and Values.CloneEqualsOriginal are facts about patterns, and Java's `equals` is not reflexive on NaN. Likewise `writeFloat` and `writeDouble` write `floatToIntBits` and `doubleToLongBits`, which map every NaN to one canonical pattern, while OutputStreams.NbtOutputStream.WriteFloat and WriteDouble write the stored pattern unchanged.
- OutputStreams.NbtOutputStream.WriteCompound: the iteration order of `HashMap` is the `KeyOrder` parameter. Every property is proved for every enumeration of the key set, not for Java's actual hash order.
- `MapView`, `ListView` and the unmodifiable compound and list views are not modelled. They are adapters that forward to the underlying map and list.
- The `clone` of an unmodifiable array view is not modelled. It calls itself without end.
- The `Extractor`/`Inserter` helpers and the `get`/`getList`/`setList` overloads built on them are not modelled. They are callbacks around `getValue` and `set`.
- NBTList `contains`, `indexOf`, `lastIndexOf`, `remove(Object)`, `getValue(index)` and `get(index, default)` are not modelled. They are the `ArrayList` operations applied to `convert(o)`, or a revert of `get`.
- The `NBTList(Object...)` and `NBTList(NBT...)` constructors are not modelled. They pass their arguments through `List.of` to the collection constructor, and `List.of` also throws NullPointerException on a null argument.
- File helpers are not modelled: `readFromFile`, `writeToFile`, `writeRoot` and the static `readRootCompound`/`readCompound` stream wrappers.
- Stream delegation is not modelled: the `read`/`write`/`close`/`mark` overrides of the streams, and `NBTReader`.
- `hashCode`, `toString` and `accept(visitor)` are not modelled beyond what `NBTStringVisitor` renders.
- The `ENABLE_STACK_TRACES` flag and the exception-type factories are not modelled. `SUBPART_SHOWN` is a parameter of the context functions.
- Malformed.GetContext: Java computes `cursor - SUBPART_SHOWN` in 32-bit `int`, which wraps for a width near `Integer.MIN_VALUE`. The model subtracts exactly and, for every negative width, returns IndexOutOfBounds.
- Readers.StringReader.Peek: Java's cursor, `canRead`, `peek` and the context window count UTF-16 code units, while the model counts Unicode scalar values. After a supplementary character, error positions and context windows therefore differ. So does the typed-array test of TextParser.ValueDispatch: Java reads `[😀;1]` as a list, since `peek(2)` there is a low surrogate, while the model raises ARRAY_INVALID.
- TextParser.NbtParser.Parse: every parse method assumes a reader whose end is its input's end and whose cursor lies inside the input (`NbtParser.Valid`). `new NBTParser(StringReader)` also accepts a reader made by `substring(start, end)` that ends earlier, or one whose cursor is out of range; such readers are not covered. The library's own entry point, `parse(String)`, always builds the parser over the whole trimmed input.
- TextGrammar.UnquotedAt: `Character.isDigit` and `Character.isAlphabetic` are modelled on ASCII only, so letters and digits of other scripts are not accepted in unquoted strings or bare keys.
- Readers.StringReader.Skip: the cursor is an unbounded integer. Overflow of Java's `int` cursor, on inputs of 2^31 characters or more, is not modelled.
- Java's `String.trim` is modelled exactly on characters up to U+0020. The `String.compareTo` used to sort keys is modelled as comparison of UTF-16 code units.

## Findings

| source | as written | input that shows it | evidently intended | confidence | as-written member | corrected member |
|---|---|---|---|---|---|---|
| src/main/java/org/machinemc/nbt/NBTLongArray.java:20-22 | `new NBTLongArray(int size)` allocates a `Long[size]` of nulls and unboxes it | size 1: unboxing the null element throws NullPointerException | a zero-filled `long[size]`, as `NBTIntArray(int)` and `NBTByteArray(int)` give | high (not executed) | Arrays.LongArrayOfSize | Arrays.ZeroedLongArrayOfSize |
| src/main/java/org/machinemc/nbt/io/NBTOutputStream.java:84-89 | `writeString` writes `value.length()`, a UTF-16 count, ahead of the UTF-8 bytes, and `readString` reads that many bytes | `"é"`: prefix 1, body C3 A9; the reader stops after C3 | the UTF-8 byte count as the prefix, so that non-ASCII text reads back | high (not executed) | CodecLaws.NonAsciiStringReadShort | CodecLaws.ByteCountStringRoundTrip |
