/**
 * `NBTParser`: recursive descent over a `StringReader`, one method per rule of
 * the text format. Each method is proved to do what the matching function of
 * `TextGrammar` describes: the same value and the same cursor afterwards, or
 * the same problem raised at the same cursor.
 */
module TextParser {
  import opened Wrappers
  import opened Tags
  import opened Values
  import opened Malformed
  import opened Readers
  import opened TextGrammar

  /** A parse method's result and the cursor it leaves agree with the grammar's account. */
  predicate Agrees<T(==)>(r: Result<T, Syntax>, cursor: int, spec: Result<Parsed<T>, Syntax>)
  {
    if spec.Success? then r == Success(spec.value.value) && cursor == spec.value.next
    else r == Failure(spec.error) && cursor == spec.error.at
  }

  class NbtParser {
    const reader: StringReader
    const floats: Floats
    var parsedCompound: Option<Nbt>

    /** The reader ends where its input ends, and its cursor lies inside the input. */
    ghost predicate Valid()
      reads reader
    {
      reader.end == |reader.input| && 0 <= reader.cursor <= reader.end
    }

    /** `new NBTParser(String)`: a reader over the trimmed input. */
    constructor FromString(input: string, floats: Floats)
      ensures Valid() && fresh(reader)
      ensures reader.input == Trim(input) && reader.cursor == 0
      ensures this.floats == floats && parsedCompound == None
    {
      reader := new StringReader(Trim(input));
      this.floats := floats;
      parsedCompound := None;
    }

    /** `new NBTParser(StringReader)` */
    constructor (reader: StringReader, floats: Floats)
      ensures this.reader == reader && this.floats == floats && parsedCompound == None
    {
      this.reader := reader;
      this.floats := floats;
      parsedCompound := None;
    }

    /** `parse()`: a compound, which is also remembered as the parsed compound. */
    method Parse() returns (r: Result<Nbt, Syntax>)
      requires Valid()
      modifies this, reader
      ensures Valid()
      ensures Agrees(r, reader.cursor, CompoundAt(reader.input, old(reader.cursor), floats))
      ensures parsedCompound == if r.Success? then Some(r.value) else old(parsedCompound)
    {
      r := ParseCompound();
      if r.Success? {
        parsedCompound := Some(r.value);
      }
    }

    /** `eat(expected)` */
    method Eat(expected: char) returns (r: Result<(), Syntax>)
      requires Valid()
      modifies reader
      ensures Valid()
      ensures match EatAt(reader.input, old(reader.cursor), expected)
        case Success(n) => r == Success(()) && reader.cursor == n
        case Failure(e) => r == Failure(e) && reader.cursor == e.at
    {
      ghost var s, c := reader.input, reader.cursor;
      var _ := reader.SkipWhitespace();
      WsScan(s, c);
      SkipWhitespaceIdempotent(s, |s|, c);
      var eaten := reader.Eat(expected);
      if eaten.Failure? {
        return Failure(eaten.error.error);
      }
      r := Success(());
    }

    /** `hasElementSeparator()` */
    method HasElementSeparator() returns (more: bool)
      requires Valid()
      modifies reader
      ensures Valid()
      ensures (more, reader.cursor) == SeparatorAt(reader.input, old(reader.cursor))
    {
      ghost var s, c := reader.input, reader.cursor;
      var _ := reader.SkipWhitespace();
      WsScan(s, c);
      SkipWhitespaceIdempotent(s, |s|, c);
      var eaten := reader.EatSafely(',');
      if eaten == Success(true) {
        WsScan(s, reader.cursor);
        var _ := reader.SkipWhitespace();
        return true;
      }
      more := false;
    }

    /** `parseQuotedString()`: the character under the cursor is the quote. */
    method ParseQuotedString() returns (r: Result<string, Syntax>)
      requires Valid() && reader.CanRead(1)
      modifies reader
      ensures Valid()
      ensures Agrees(r, reader.cursor, QuotedAt(reader.input, old(reader.cursor)))
    {
      ghost var s, c := reader.input, reader.cursor;
      var q := reader.Read();
      var quote := q.value;
      var builder := "";
      var escaped := false;
      while reader.CanRead(1)
        invariant Valid() && c < reader.cursor
        invariant QuotedFrom(s, quote, reader.cursor, builder, escaped) == QuotedAt(s, c)
        decreases reader.end - reader.cursor
      {
        var read := reader.Read();
        var current := read.value;
        if escaped && (current != '\\' || current != quote) {
          reader.SetCursor(reader.cursor - 1);
          return Failure(Syntax(InvalidEscape(current), reader.cursor));
        }
        if current == '\\' && !escaped {
          escaped := true;
          continue;
        }
        if current == quote && !escaped {
          return Success(builder);
        }
        escaped := false;
        builder := builder + [current];
      }
      r := Failure(Syntax(ExpectedEndOfQuote, reader.cursor));
    }

    /** `parseUnquotedString()` */
    method ParseUnquotedString() returns (r: string)
      requires Valid()
      modifies reader
      ensures Valid()
      ensures r == UnquotedAt(reader.input, old(reader.cursor)).value
      ensures reader.cursor == UnquotedAt(reader.input, old(reader.cursor)).next
    {
      UnquotedScan(reader.input, reader.cursor);
      var value := reader.ReadUntil(NotUnquotedChar);
      r := value.value;
    }

    /** `parseString()` */
    method ParseString() returns (r: Result<string, Syntax>)
      requires Valid()
      modifies reader
      ensures Valid()
      ensures Agrees(r, reader.cursor, StringAt(reader.input, old(reader.cursor)))
    {
      if !reader.CanRead(1) {
        return Success("");
      }
      var c := reader.Peek(0).value;
      if c == '"' || c == '\'' {
        r := ParseQuotedString();
      } else {
        var u := ParseUnquotedString();
        r := Success(u);
      }
    }

    /** `parseKey()` */
    method ParseKey() returns (r: Result<string, Syntax>)
      requires Valid()
      modifies reader
      ensures Valid()
      ensures Agrees(r, reader.cursor, KeyAt(reader.input, old(reader.cursor)))
    {
      WsScan(reader.input, reader.cursor);
      var _ := reader.SkipWhitespace();
      if !reader.CanRead(1) {
        return Failure(Syntax(ExpectedKey, reader.cursor));
      }
      r := ParseString();
    }

    /** `parseNumber()`: `None` is the NumberFormatException the chosen parser throws. */
    method ParseNumber() returns (r: Option<Nbt>)
      requires Valid()
      modifies reader
      ensures Valid()
      ensures r == NumberAt(reader.input, old(reader.cursor), floats).value
      ensures reader.cursor == NumberAt(reader.input, old(reader.cursor), floats).next
    {
      NumberScan(reader.input, reader.cursor);
      var numberString := reader.ReadUntil(NotNumberChar);
      var hasSuffix := true;
      var suffix := if reader.CanRead(1) then Suffix(reader.Peek(0).value) else '\0';
      if suffix == '\0' {
        hasSuffix := false;
      }
      if reader.CanRead(1) && hasSuffix {
        reader.Skip();
      }
      r := NumberOf(numberString.value, suffix, floats);
    }

    /** `parseSimpleValue()`: a number that does not parse puts the cursor back and is read as an unquoted string. */
    method ParseSimpleValue() returns (r: Result<Nbt, Syntax>)
      requires Valid() && reader.CanRead(1)
      modifies reader
      ensures Valid()
      ensures Agrees(r, reader.cursor, SimpleAt(reader.input, old(reader.cursor), floats))
    {
      var c := reader.Peek(0).value;
      if c == '\'' || c == '"' {
        var q := ParseQuotedString();
        if q.Failure? {
          return Failure(q.error);
        }
        return Success(Str(q.value));
      }
      var start := reader.cursor;
      if IsNumberChar(c) {
        var n := ParseNumber();
        if n.Some? {
          return Success(n.value);
        }
        reader.SetCursor(start);
      }
      var text := ParseUnquotedString();
      if text == "" {
        return Failure(Syntax(ExpectedValue, reader.cursor));
      }
      if text == "true" {
        return Success(ByteOfBool(true));
      }
      if text == "false" {
        return Success(ByteOfBool(false));
      }
      r := Success(Str(text));
    }

    /** `parseValue()` */
    method ParseValue() returns (r: Result<Nbt, Syntax>)
      requires Valid()
      modifies reader
      ensures Valid()
      ensures Agrees(r, reader.cursor, ValueAt(reader.input, old(reader.cursor), floats))
      decreases |reader.input| - reader.cursor, 2
    {
      ghost var s, c0 := reader.input, reader.cursor;
      WsScan(s, c0);
      var _ := reader.SkipWhitespace();
      assert reader.cursor == Ws(s, c0);
      ValueDispatch(s, c0, floats);
      if !reader.CanRead(1) {
        assert reader.cursor == |s|;
        return Failure(Syntax(ExpectedValue, reader.cursor));
      }
      ghost var k := reader.cursor;
      var c := reader.Peek(0).value;
      if c == '[' {
        var isArray := reader.CanRead(3) && reader.Peek(2).value == ';';
        ghost var spec := if isArray then ArrayAt(s, k, floats) else ListAt(s, k, floats);
        assert spec == ValueAt(s, c0, floats);
        if isArray {
          r := ParseArray();
        } else {
          r := ParseList();
        }
        assert Agrees(r, reader.cursor, spec);
      } else if c == '{' {
        r := ParseCompound();
      } else {
        r := ParseSimpleValue();
      }
    }

    /** `parseList()`: `parseCollection` with `[`, `]`, and elements of one tag. */
    method ParseList() returns (r: Result<Nbt, Syntax>)
      requires Valid()
      modifies reader
      ensures Valid()
      ensures Agrees(r, reader.cursor, ListAt(reader.input, old(reader.cursor), floats))
      decreases |reader.input| - reader.cursor, 1
    {
      ghost var s, c0 := reader.input, reader.cursor;
      var opening := Eat('[');
      if opening.Failure? {
        return Failure(opening.error);
      }
      WsScan(s, reader.cursor);
      var _ := reader.SkipWhitespace();
      var elementType := END;
      var list: seq<Nbt> := [];
      var more := true;
      while more && reader.CanRead(1) && reader.Peek(0).value != ']'
        invariant Valid() && c0 < reader.cursor
        invariant more ==> ListItems(s, reader.cursor, elementType, list, floats) == ListAt(s, c0, floats)
        invariant !more ==> CloseAt(s, reader.cursor, ']', List(elementType, list)) == ListAt(s, c0, floats)
        decreases |s| - reader.cursor
      {
        var start := reader.cursor;
        var value := ParseValue();
        if value.Failure? {
          return Failure(value.error);
        }
        var tag := TagOf(value.value);
        if elementType != END && tag != elementType {
          reader.SetCursor(start);
          return Failure(Syntax(ListMixed(tag, elementType), reader.cursor));
        }
        list := list + [value.value];
        elementType := tag;
        more := HasElementSeparator();
      }
      var closed := Eat(']');
      if closed.Failure? {
        return Failure(closed.error);
      }
      r := Success(List(elementType, list));
    }

    /** `parseCompound()`: `parseCollection` with `{`, `}`, and `key : value` entries. */
    method ParseCompound() returns (r: Result<Nbt, Syntax>)
      requires Valid()
      modifies reader
      ensures Valid()
      ensures Agrees(r, reader.cursor, CompoundAt(reader.input, old(reader.cursor), floats))
      decreases |reader.input| - reader.cursor, 1
    {
      ghost var s, c0 := reader.input, reader.cursor;
      var opening := Eat('{');
      if opening.Failure? {
        return Failure(opening.error);
      }
      WsScan(s, reader.cursor);
      var _ := reader.SkipWhitespace();
      var entries: map<string, Nbt> := map[];
      var more := true;
      while more && reader.CanRead(1) && reader.Peek(0).value != '}'
        invariant Valid() && c0 < reader.cursor
        invariant more ==> Entries(s, reader.cursor, entries, floats) == CompoundAt(s, c0, floats)
        invariant !more ==> CloseAt(s, reader.cursor, '}', Compound(entries)) == CompoundAt(s, c0, floats)
        decreases |s| - reader.cursor
      {
        var key := ParseKey();
        if key.Failure? {
          return Failure(key.error);
        }
        var colon := Eat(':');
        if colon.Failure? {
          return Failure(colon.error);
        }
        WsScan(s, reader.cursor);
        var _ := reader.SkipWhitespace();
        var value := ParseValue();
        if value.Failure? {
          return Failure(value.error);
        }
        entries := entries[key.value := value.value];
        more := HasElementSeparator();
      }
      var closed := Eat('}');
      if closed.Failure? {
        return Failure(closed.error);
      }
      r := Success(Compound(entries));
    }

    /** `parseArray()`: `[`, the type character, `;`, then numbers of the array's element tag. */
    method ParseArray() returns (r: Result<Nbt, Syntax>)
      requires Valid() && reader.CanRead(3)
      requires reader.input[reader.cursor] == '[' && reader.input[reader.cursor + 2] == ';'
      modifies reader
      ensures Valid()
      ensures Agrees(r, reader.cursor, ArrayAt(reader.input, old(reader.cursor), floats))
      decreases |reader.input| - reader.cursor, 1
    {
      ghost var s, c0 := reader.input, reader.cursor;
      var opening := Eat('[');
      if opening.Failure? {
        return Failure(opening.error);
      }
      assert reader.cursor == c0 + 1;
      var kind := reader.Peek(0).value;
      var arrayTag := ArrayTag(kind);
      if arrayTag == END {
        return Failure(Syntax(ArrayInvalid(kind), reader.cursor));
      }
      reader.Skip();
      var semicolon := Eat(';');
      if semicolon.Failure? {
        return Failure(semicolon.error);
      }
      ArrayStart(s, c0, floats);
      assert reader.cursor == c0 + 3 && arrayTag == ArrayTag(s[c0 + 1]);
      WsScan(s, reader.cursor);
      var _ := reader.SkipWhitespace();
      r := ParseArrayElements(arrayTag);
    }

    /** The element loop of `parseArray`, its closing `]` and `createArray`. */
    method ParseArrayElements(arrayTag: Tag) returns (r: Result<Nbt, Syntax>)
      requires Valid() && (arrayTag == BYTE || arrayTag == INT || arrayTag == LONG)
      modifies reader
      ensures Valid()
      ensures Agrees(r, reader.cursor, ArrayItems(reader.input, old(reader.cursor), arrayTag, [], floats))
      decreases |reader.input| - reader.cursor, 3
    {
      ghost var s, c0 := reader.input, reader.cursor;
      var elements: seq<Nbt> := [];
      var more := true;
      while more && reader.CanRead(1) && reader.Peek(0).value != ']'
        invariant Valid() && c0 <= reader.cursor
        invariant forall i :: 0 <= i < |elements| ==> TagOf(elements[i]) == arrayTag
        invariant more ==> ArrayItems(s, reader.cursor, arrayTag, elements, floats) == ArrayItems(s, c0, arrayTag, [], floats)
        invariant !more ==> CloseAt(s, reader.cursor, ']', ArrayOf(arrayTag, elements)) == ArrayItems(s, c0, arrayTag, [], floats)
        decreases |s| - reader.cursor
      {
        var start := reader.cursor;
        ArrayStep(s, start, arrayTag, elements, floats);
        var value := ParseValue();
        if value.Failure? {
          return Failure(value.error);
        }
        if TagOf(value.value) != arrayTag {
          reader.SetCursor(start);
          return Failure(Syntax(ArrayMixed(TagOf(value.value), arrayTag), reader.cursor));
        }
        AppendTagged(elements, value.value, arrayTag);
        elements := elements + [value.value];
        more := HasElementSeparator();
      }
      var closed := Eat(']');
      if closed.Failure? {
        return Failure(closed.error);
      }
      r := Success(ArrayOf(arrayTag, elements));
    }
  }

  /** Which rule `parseValue` hands over to, by the characters after the whitespace. */
  lemma ValueDispatch(s: string, c: nat, fl: Floats)
    requires c <= |s|
    ensures Ws(s, c) == |s| ==> ValueAt(s, c, fl) == Failure(Syntax(ExpectedValue, |s|))
    ensures var k := Ws(s, c);
      k < |s| ==>
        ValueAt(s, c, fl) ==
          if s[k] == '[' then
            if k + 3 <= |s| && s[k + 2] == ';' then ArrayAt(s, k, fl) else ListAt(s, k, fl)
          else if s[k] == '{' then CompoundAt(s, k, fl)
          else SimpleAt(s, k, fl)
  {
  }

  /** `parseArray` up to its element loop: `[`, a valid type character and `;` lead to the loop from the whitespace after them. */
  lemma ArrayStart(s: string, c: nat, fl: Floats)
    requires c + 3 <= |s| && s[c] == '[' && s[c + 2] == ';' && ArrayTag(s[c + 1]) != END
    ensures EatAt(s, c + 2, ';') == Success(c + 3)
    ensures ArrayAt(s, c, fl) == ArrayItems(s, Ws(s, c + 3), ArrayTag(s[c + 1]), [], fl)
  {
    assert Ws(s, c) == c;
    assert EatAt(s, c, '[') == Success(c + 1);
    assert Ws(s, c + 2) == c + 2;
  }

  /** One pass of `parseArray`'s element loop. */
  lemma ArrayStep(s: string, c: nat, t: Tag, xs: seq<Nbt>, fl: Floats)
    requires c < |s| && s[c] != ']'
    requires t == BYTE || t == INT || t == LONG
    requires forall i :: 0 <= i < |xs| ==> TagOf(xs[i]) == t
    ensures ValueAt(s, c, fl).Failure? ==> ArrayItems(s, c, t, xs, fl) == Failure(ValueAt(s, c, fl).error)
    ensures ValueAt(s, c, fl).Success? ==>
      var v := ValueAt(s, c, fl).value;
      ArrayItems(s, c, t, xs, fl) ==
        if TagOf(v.value) != t then Failure(Syntax(ArrayMixed(TagOf(v.value), t), c))
        else if SeparatorAt(s, v.next).0 then ArrayItems(s, SeparatorAt(s, v.next).1, t, xs + [v.value], fl)
        else CloseAt(s, SeparatorAt(s, v.next).1, ']', ArrayOf(t, xs + [v.value]))
  {
  }

  lemma AppendTagged(xs: seq<Nbt>, v: Nbt, t: Tag)
    requires forall i :: 0 <= i < |xs| ==> TagOf(xs[i]) == t
    requires TagOf(v) == t
    ensures forall i :: 0 <= i < |xs + [v]| ==> TagOf((xs + [v])[i]) == t
  {
  }

  /**
   * The static `NBTParser.parse(input)`: the compound the grammar reads from the
   * trimmed input, or the exception carrying the trimmed input and the cursor
   * where the problem was found.
   */
  method ParseNbt(input: string, floats: Floats) returns (r: Result<Nbt, MalformedNbt>)
    ensures ParseText(input, floats).Success? ==> r == Success(ParseText(input, floats).value)
    ensures ParseText(input, floats).Failure? ==>
      var e := ParseText(input, floats).error;
      r == Failure(Raised(e.problem, Trim(input), e.at))
  {
    var parser := new NbtParser.FromString(input, floats);
    var parsed := parser.Parse();
    if parsed.Failure? {
      return Failure(Raised(parsed.error.problem, parser.reader.input, parsed.error.at));
    }
    r := Success(parsed.value);
  }
}
