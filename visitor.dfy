/**
 * `NBTStringVisitor`: the text form of a value, appended to a builder. Numbers
 * carry their type suffix, strings are quoted by `quoteAndEscape`, arrays list
 * their elements after a type prefix, and compounds list their entries in
 * ascending key order, a key left bare when it is made of safe characters.
 */
module StringVisitor {
  import opened Wrappers
  import opened JavaInts
  import opened Values
  import opened Decimals
  import opened QuotedStrings
  import opened Ordering

  /** `Float.toString` and `Double.toString`: floating-point formatting is outside the model. */
  datatype Texts = Texts(float: Bits32 -> string, double: Bits64 -> string)

  /** The characters `isSimpleValue` lets through: `_`, `-`, `.`, `+`, and ASCII digits and letters. */
  predicate IsBareChar(c: char)
  {
    c == '_' || c == '-' || c == '.' || c == '+' || ('0' <= c <= '9') || ('a' <= c <= 'z') || ('A' <= c <= 'Z')
  }

  /** A key that is written without quotes: not empty, and bare characters only. */
  predicate IsBareKey(s: string)
  {
    s != [] && forall i :: 0 <= i < |s| ==> IsBareChar(s[i])
  }

  /** What `handleEscape` makes of a key. */
  function KeyText(s: string): string
  {
    if IsBareKey(s) then s else Quoted(s)
  }

  /** The parts with a comma between each two. */
  function Joined(parts: seq<string>): string
  {
    if |parts| == 0 then ""
    else if |parts| == 1 then parts[0]
    else Joined(parts[..|parts| - 1]) + "," + parts[|parts| - 1]
  }

  function ByteTexts(xs: seq<i8>): seq<string>
  {
    seq(|xs|, i requires 0 <= i < |xs| => IntText(xs[i]) + "B")
  }

  function IntTexts(xs: seq<i32>): seq<string>
  {
    seq(|xs|, i requires 0 <= i < |xs| => IntText(xs[i]))
  }

  function LongTexts(xs: seq<i64>): seq<string>
  {
    seq(|xs|, i requires 0 <= i < |xs| => IntText(xs[i]) + "L")
  }

  /** The text the visitor produces for a value. */
  ghost function Render(v: Nbt, tx: Texts): (r: string)
    ensures r == "" <==> v.End?
    ensures v.Compound? ==> r[0] == '{' && r[|r| - 1] == '}'
    ensures v.List? || v.ByteArray? || v.IntArray? || v.LongArray? ==> r[0] == '[' && r[|r| - 1] == ']'
    decreases v, 1
  {
    match v
    case End => ""
    case Byte(x) => IntText(x) + "b"
    case Short(x) => IntText(x) + "s"
    case Int(x) => IntText(x)
    case Long(x) => IntText(x) + "L"
    case Float(bits) => tx.float(bits) + "f"
    case Double(bits) => tx.double(bits) + "d"
    case Str(s) => Quoted(s)
    case ByteArray(xs) => "[B;" + Joined(ByteTexts(xs)) + "]"
    case IntArray(xs) => "[I;" + Joined(IntTexts(xs)) + "]"
    case LongArray(xs) => "[L;" + Joined(LongTexts(xs)) + "]"
    case List(_, _) => "[" + Joined(ListParts(v, tx)) + "]"
    case Compound(_) => "{" + Joined(CompoundParts(v, tx)) + "}"
  }

  /** Each element's text, as a fresh visitor renders it. */
  ghost function ListParts(v: Nbt, tx: Texts): (parts: seq<string>)
    requires v.List?
    ensures |parts| == |v.items|
    decreases v, 0
  {
    seq(|v.items|, i requires 0 <= i < |v.items| => Render(v.items[i], tx))
  }

  /** Each entry as `key:value`, in ascending key order. */
  ghost function CompoundParts(v: Nbt, tx: Texts): (parts: seq<string>)
    requires v.Compound?
    ensures |parts| == |v.entries|
    decreases v, 0
  {
    var ks := SortedKeys(v.entries.Keys);
    seq(|ks|, i requires 0 <= i < |ks| => KeyText(ks[i]) + ":" + Render(v.entries[ks[i]], tx))
  }

  class NbtStringVisitor {
    var builder: string
    const texts: Texts

    constructor (texts: Texts)
      ensures builder == "" && this.texts == texts
    {
      builder := "";
      this.texts := texts;
    }

    /** `visitNBT(nbt)`: the value is appended, and the whole builder is returned. */
    method VisitNbt(v: Nbt) returns (r: string)
      modifies this
      ensures builder == old(builder) + Render(v, texts)
      ensures r == builder
      decreases v, 3
    {
      Visit(v);
      r := builder;
    }

    /** `nbt.accept(this)`: the `visit` overload of the value's class. */
    method Visit(v: Nbt)
      modifies this
      ensures builder == old(builder) + Render(v, texts)
      decreases v, 2
    {
      match v
      case End =>
      case Byte(x) =>
        builder := builder + (IntText(x) + "b");
      case Short(x) =>
        builder := builder + (IntText(x) + "s");
      case Int(x) =>
        builder := builder + IntText(x);
      case Long(x) =>
        builder := builder + (IntText(x) + "L");
      case Float(bits) =>
        builder := builder + (texts.float(bits) + "f");
      case Double(bits) =>
        builder := builder + (texts.double(bits) + "d");
      case Str(s) =>
        var q := QuoteAndEscape(s);
        builder := builder + q;
      case ByteArray(xs) =>
        VisitByteArray(xs);
      case IntArray(xs) =>
        VisitIntArray(xs);
      case LongArray(xs) =>
        VisitLongArray(xs);
      case List(_, _) =>
        VisitList(v);
      case Compound(_) =>
        VisitCompound(v);
    }

    /** `visit(NBTByteArray)` */
    method VisitByteArray(bytes: seq<i8>)
      modifies this
      ensures builder == old(builder) + ("[B;" + Joined(ByteTexts(bytes)) + "]")
    {
      builder := builder + "[B;";
      var i := 0;
      while i < |bytes|
        invariant 0 <= i <= |bytes|
        invariant builder == old(builder) + "[B;" + Joined(ByteTexts(bytes)[..i])
      {
        ghost var before := builder;
        if i != 0 {
          builder := builder + ",";
        }
        var text := IntText(bytes[i]) + "B";
        builder := builder + text;
        AppendPart(old(builder) + "[B;", ByteTexts(bytes), i, before, builder);
        i := i + 1;
      }
      assert ByteTexts(bytes)[..i] == ByteTexts(bytes);
      builder := builder + "]";
      Bracketed(old(builder), "[B;", Joined(ByteTexts(bytes)), builder);
    }

    /** `visit(NBTIntArray)` */
    method VisitIntArray(ints: seq<i32>)
      modifies this
      ensures builder == old(builder) + ("[I;" + Joined(IntTexts(ints)) + "]")
    {
      builder := builder + "[I;";
      var i := 0;
      while i < |ints|
        invariant 0 <= i <= |ints|
        invariant builder == old(builder) + "[I;" + Joined(IntTexts(ints)[..i])
      {
        ghost var before := builder;
        if i != 0 {
          builder := builder + ",";
        }
        var text := IntText(ints[i]);
        builder := builder + text;
        AppendPart(old(builder) + "[I;", IntTexts(ints), i, before, builder);
        i := i + 1;
      }
      assert IntTexts(ints)[..i] == IntTexts(ints);
      builder := builder + "]";
      Bracketed(old(builder), "[I;", Joined(IntTexts(ints)), builder);
    }

    /** `visit(NBTLongArray)` */
    method VisitLongArray(longs: seq<i64>)
      modifies this
      ensures builder == old(builder) + ("[L;" + Joined(LongTexts(longs)) + "]")
    {
      builder := builder + "[L;";
      var i := 0;
      while i < |longs|
        invariant 0 <= i <= |longs|
        invariant builder == old(builder) + "[L;" + Joined(LongTexts(longs)[..i])
      {
        ghost var before := builder;
        if i != 0 {
          builder := builder + ",";
        }
        var text := IntText(longs[i]) + "L";
        builder := builder + text;
        AppendPart(old(builder) + "[L;", LongTexts(longs), i, before, builder);
        i := i + 1;
      }
      assert LongTexts(longs)[..i] == LongTexts(longs);
      builder := builder + "]";
      Bracketed(old(builder), "[L;", Joined(LongTexts(longs)), builder);
    }

    /** `visit(NBTList)`: each element rendered by a fresh visitor. */
    method VisitList(v: Nbt)
      requires v.List?
      modifies this
      ensures builder == old(builder) + Render(v, texts)
      decreases v, 1
    {
      builder := builder + "[";
      ghost var parts := ListParts(v, texts);
      var i := 0;
      while i < |v.items|
        invariant 0 <= i <= |v.items|
        invariant builder == old(builder) + "[" + Joined(parts[..i])
      {
        ghost var before := builder;
        if i != 0 {
          builder := builder + ",";
        }
        AppendNested(v.items[i]);
        AppendPart(old(builder) + "[", parts, i, before, builder);
        i := i + 1;
      }
      assert parts[..i] == parts;
      builder := builder + "]";
      ListText(v, texts, old(builder), builder);
    }

    /** `visit(NBTCompound)`: the keys copied into a list and sorted, then `key:value` for each, values rendered by fresh visitors. */
    method VisitCompound(v: Nbt)
      requires v.Compound?
      modifies this
      ensures builder == old(builder) + Render(v, texts)
      decreases v, 1
    {
      builder := builder + "{";
      var m := v.entries;
      var keys := KeyList(m);
      SortedKeysOfAnyOrder(m.Keys, keys);
      keys := Sort(keys);
      ghost var parts := CompoundParts(v, texts);
      var i := 0;
      while i < |keys|
        invariant 0 <= i <= |keys| && keys == SortedKeys(m.Keys)
        invariant builder == old(builder) + "{" + Joined(parts[..i])
      {
        ghost var before := builder;
        if i != 0 {
          builder := builder + ",";
        }
        var entry := EntryText(v, i, keys[i]);
        builder := builder + entry;
        AppendPart(old(builder) + "{", parts, i, before, builder);
        i := i + 1;
      }
      assert parts[..i] == parts;
      builder := builder + "}";
      CompoundText(v, texts, old(builder), builder);
    }

    /** `handleEscape(key) + ':' + new NBTStringVisitor().visitNBT(tag)`: the text of the entry at position `i`. */
    method EntryText(v: Nbt, i: nat, key: string) returns (entry: string)
      requires v.Compound? && i < |v.entries| && key == SortedKeys(v.entries.Keys)[i]
      ensures entry == CompoundParts(v, texts)[i]
      decreases v, 0
    {
      var name := HandleEscape(key);
      var child := new NbtStringVisitor(texts);
      var text := child.VisitNbt(v.entries[key]);
      CompoundPartAt(v, texts, i);
      entry := name + ":" + text;
    }

    /** `append(new NBTStringVisitor().visitNBT(tag))`: a nested value, rendered by a fresh visitor. */
    method AppendNested(v: Nbt)
      modifies this
      ensures builder == old(builder) + Render(v, texts)
      decreases v, 4
    {
      var child := new NbtStringVisitor(texts);
      var text := child.VisitNbt(v);
      builder := builder + text;
    }

    /**
     * `clear()`: `delete(0, length - 1)` removes all but the last character,
     * and throws on an empty builder, where the end lies before the start.
     */
    method Clear() returns (r: Result<(), Thrown>)
      modifies this
      ensures old(builder) == [] ==> r == Failure(IndexOutOfBounds) && builder == old(builder)
      ensures old(builder) != [] ==> r == Success(()) && builder == [old(builder)[|old(builder)| - 1]]
    {
      if |builder| - 1 < 0 {
        return Failure(IndexOutOfBounds);
      }
      builder := builder[|builder| - 1..];
      r := Success(());
    }
  }

  /** `new ArrayList<>(keySet())`: the keys in whatever order the set hands them out. */
  method KeyList(m: map<string, Nbt>) returns (list: seq<string>)
    ensures multiset(list) == multiset(m.Keys)
  {
    list := [];
    var rest := m.Keys;
    while rest != {}
      invariant multiset(list) + multiset(rest) == multiset(m.Keys)
      decreases |rest|
    {
      var k :| k in rest;
      assert multiset(rest) == multiset(rest - {k}) + multiset{k};
      list := list + [k];
      rest := rest - {k};
    }
  }

  /** `isSimpleValue(string)`: false for the empty string and on the first character that is not bare. */
  method IsSimpleValue(s: string) returns (r: bool)
    ensures r <==> IsBareKey(s)
  {
    if s == [] {
      return false;
    }
    var i := 0;
    while i < |s|
      invariant 0 <= i <= |s|
      invariant forall j :: 0 <= j < i ==> IsBareChar(s[j])
    {
      var c := s[i];
      if c == '_' || c == '-' || c == '.' || c == '+' {
      } else if ('0' > c || c > '9') && ('a' > c || c > 'z') && ('A' > c || c > 'Z') {
        return false;
      }
      i := i + 1;
    }
    r := true;
  }

  /** `handleEscape(string)`: a bare key as it is, any other quoted and escaped. */
  method HandleEscape(s: string) returns (r: string)
    ensures r == KeyText(s)
    ensures IsBareKey(s) ==> r == s
    ensures !IsBareKey(s) ==> |r| >= 2 && IsQuote(r[0]) && r[0] == r[|r| - 1]
  {
    var simple := IsSimpleValue(s);
    if simple {
      r := s;
    } else {
      r := QuoteAndEscape(s);
      QuotedEnds(s, r);
    }
  }

  // ----- properties of the text -----

  /** The closing bracket appended last: what was appended is the whole bracketed text. */
  lemma Bracketed(a: string, open: string, body: string, b: string)
    requires b == a + open + body + "]"
    ensures b == a + (open + body + "]")
  {
  }

  /** A builder holding the first `i` parts after some prefix holds the first `i + 1` once the next part is appended. */
  lemma AppendPart(prefix: string, parts: seq<string>, i: nat, b: string, b': string)
    requires i < |parts| && b == prefix + Joined(parts[..i])
    requires b' == b + (if i != 0 then "," else "") + parts[i]
    ensures b' == prefix + Joined(parts[..i + 1])
  {
    JoinedStep(parts, i);
  }

  /** A list's text is its elements' texts, joined, in brackets. */
  lemma ListText(v: Nbt, tx: Texts, b: string, b': string)
    requires v.List? && b' == b + "[" + Joined(ListParts(v, tx)) + "]"
    ensures b' == b + Render(v, tx)
  {
  }

  /** A compound's text is its entries' texts, joined, in braces. */
  lemma CompoundText(v: Nbt, tx: Texts, b: string, b': string)
    requires v.Compound? && b' == b + "{" + Joined(CompoundParts(v, tx)) + "}"
    ensures b' == b + Render(v, tx)
  {
  }

  /** The entry at position `i` of a compound's text. */
  lemma CompoundPartAt(v: Nbt, tx: Texts, i: nat)
    requires v.Compound? && i < |v.entries|
    ensures var ks := SortedKeys(v.entries.Keys);
      ks[i] in v.entries && CompoundParts(v, tx)[i] == KeyText(ks[i]) + ":" + Render(v.entries[ks[i]], tx)
  {
  }

  /** A key is written as it is exactly when it is bare; any other key gains at least its two delimiters. */
  lemma KeyLeftBare(s: string)
    ensures KeyText(s) == s <==> IsBareKey(s)
    ensures !IsBareKey(s) ==> |KeyText(s)| >= |s| + 2
  {
    if !IsBareKey(s) {
      EscapedLength(s, |s|);
      assert |Quoted(s)| == |Escaped(s, |s|)| + 2;
    }
  }

  /**
   * Whatever order the key set hands its keys out in, the visitor writes the
   * entries in one order, ascending by key, every key exactly once: the text
   * does not depend on the order the entries were put in.
   */
  lemma EntryOrderIrrelevant(v: Nbt, tx: Texts, list: seq<string>)
    requires v.Compound? && multiset(list) == multiset(v.entries.Keys)
    ensures var ks := Sort(list);
      Sorted(ks) && |ks| == |v.entries|
      && (forall i :: 0 <= i < |ks| ==> ks[i] in v.entries)
      && (forall k :: k in v.entries ==> k in ks)
      && forall i :: 0 <= i < |ks| ==> ks[i] in v.entries && CompoundParts(v, tx)[i] == KeyText(ks[i]) + ":" + Render(v.entries[ks[i]], tx)
  {
    SortedKeysOfAnyOrder(v.entries.Keys, list);
    forall i | 0 <= i < |list|
      ensures Sort(list)[i] in v.entries && CompoundParts(v, tx)[i] == KeyText(Sort(list)[i]) + ":" + Render(v.entries[Sort(list)[i]], tx)
    {
      CompoundPartAt(v, tx, i);
    }
  }

  /** Appending one more part adds a comma first unless it is the first part. */
  lemma JoinedStep(parts: seq<string>, i: nat)
    requires i < |parts|
    ensures Joined(parts[..i + 1]) == Joined(parts[..i]) + (if i != 0 then "," else "") + parts[i]
  {
    assert parts[..i + 1][..i] == parts[..i];
  }
}
