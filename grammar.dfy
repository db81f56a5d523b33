/**
 * What `NBTParser` computes, as functions of the text and a cursor position: for
 * each parse method, the value it builds and where it leaves the cursor, or the
 * problem it raises and the cursor it raises it at. The reader is the one
 * `new NBTParser(String)` makes: its `end` is the end of the text.
 */
module TextGrammar {
  import opened Wrappers
  import opened Tags
  import opened Values
  import opened JavaInts
  import opened Decimals
  import opened Malformed
  import opened Readers

  /** A value parsed, and the cursor after it. */
  datatype Parsed<T> = Parsed(value: T, next: nat)

  /**
   * `Float.parseFloat` and `Double.parseDouble` on text that passes their
   * lexical check: floating-point rounding is outside the model, so the bit
   * patterns they produce are parameters.
   */
  datatype Floats = Floats(float: string -> Bits32, double: string -> Bits64)

  // ----- the reader's scans over the text -----

  /**
   * `skipWhitespace()` from `c`: the first position at or after `c` holding no
   * whitespace, or the end of the text (`WsScan` ties it to the reader's scan).
   */
  function Ws(s: string, c: nat): (k: nat)
    requires c <= |s|
    ensures c <= k <= |s|
    ensures k < |s| ==> !IsWhitespace(s[k])
    decreases |s| - c
  {
    if c < |s| && IsWhitespace(s[c]) then Ws(s, c + 1) else c
  }

  /** What `readUntil` returns when its scan from `c` stops at `e`: the text passed over, or nothing when the input ran out. */
  function Taken(s: string, c: nat, e: nat): (r: Parsed<string>)
    requires c <= e <= |s|
    ensures c <= r.next <= |s|
    ensures r.value != [] ==> r.next == c + |r.value| && r.value == s[c..r.next]
  {
    if e < |s| then Parsed(s[c..e], e) else Parsed("", |s|)
  }

  /**
   * The reader's scan from `c` for `stop` over a text whose characters from `c`
   * to `e` fail `stop`, `e` being the end or a character satisfying it: the
   * scan finds `e`, or runs out at the end.
   */
  lemma {:induction false} ScanTo(s: string, stop: char -> bool, c: nat, e: nat)
    requires c <= e <= |s| && (forall j :: c <= j < e ==> !stop(s[j])) && (e < |s| ==> stop(s[e]))
    ensures Scan(s, |s|, stop, c) == if e < |s| then Found(e) else RanOut(|s|)
    decreases e - c
  {
    if c < e {
      ScanTo(s, stop, c + 1, e);
    }
  }

  /** Everything `skipWhitespace` passes over is whitespace. */
  lemma {:induction false} WsSkips(s: string, c: nat)
    requires c <= |s|
    ensures forall j :: c <= j < Ws(s, c) ==> IsWhitespace(s[j])
    decreases |s| - c
  {
    if c < |s| && IsWhitespace(s[c]) {
      WsSkips(s, c + 1);
    }
  }

  /** `Ws` is where the reader's whitespace scan stops. */
  lemma WsScan(s: string, c: nat)
    requires c <= |s|
    ensures Scan(s, |s|, NotWhitespace, c) == if Ws(s, c) < |s| then Found(Ws(s, c)) else RanOut(|s|)
  {
    WsSkips(s, c);
    ScanTo(s, NotWhitespace, c, Ws(s, c));
  }

  /** The first character of a number, and the characters `parseNumber` reads before its suffix. */
  predicate IsNumberChar(c: char)
  {
    '0' <= c <= '9' || c == '.' || c == '-'
  }

  predicate NotNumberChar(c: char)
  {
    !IsNumberChar(c)
  }

  /** The characters of an unquoted string: digits, letters, `_`, `-`, `.` and `+`. */
  predicate IsUnquotedChar(c: char)
  {
    IsDigit(c) || ('a' <= c <= 'z') || ('A' <= c <= 'Z') || c == '_' || c == '-' || c == '.' || c == '+'
  }

  predicate NotUnquotedChar(c: char)
  {
    !IsUnquotedChar(c)
  }

  /** Where `readUntil` for a number stops: the first position at or after `c` that cannot be part of a number, or the end. */
  function NumberEnd(s: string, c: nat): (e: nat)
    requires c <= |s|
    ensures c <= e <= |s|
    ensures e < |s| ==> !IsNumberChar(s[e])
    decreases |s| - c
  {
    if c < |s| && IsNumberChar(s[c]) then NumberEnd(s, c + 1) else c
  }

  /** Where `readUntil` for an unquoted string stops. */
  function UnquotedEnd(s: string, c: nat): (e: nat)
    requires c <= |s|
    ensures c <= e <= |s|
    ensures e < |s| ==> !IsUnquotedChar(s[e])
    decreases |s| - c
  {
    if c < |s| && IsUnquotedChar(s[c]) then UnquotedEnd(s, c + 1) else c
  }

  /** The scan for a number passes over number characters only, and is where the reader's scan stops. */
  lemma {:induction false} NumberScan(s: string, c: nat)
    requires c <= |s|
    ensures forall j :: c <= j < NumberEnd(s, c) ==> IsNumberChar(s[j])
    ensures Scan(s, |s|, NotNumberChar, c) == if NumberEnd(s, c) < |s| then Found(NumberEnd(s, c)) else RanOut(|s|)
    decreases |s| - c
  {
    if c < |s| && IsNumberChar(s[c]) {
      NumberScan(s, c + 1);
    }
    ScanTo(s, NotNumberChar, c, NumberEnd(s, c));
  }

  /** The scan for an unquoted string passes over unquoted characters only, and is where the reader's scan stops. */
  lemma {:induction false} UnquotedScan(s: string, c: nat)
    requires c <= |s|
    ensures forall j :: c <= j < UnquotedEnd(s, c) ==> IsUnquotedChar(s[j])
    ensures Scan(s, |s|, NotUnquotedChar, c) == if UnquotedEnd(s, c) < |s| then Found(UnquotedEnd(s, c)) else RanOut(|s|)
    decreases |s| - c
  {
    if c < |s| && IsUnquotedChar(s[c]) {
      UnquotedScan(s, c + 1);
    }
    ScanTo(s, NotUnquotedChar, c, UnquotedEnd(s, c));
  }

  /** `eat(expected)`: whitespace, then `expected`, after which the cursor stands; else EXPECTED_SYMBOL after the whitespace. */
  function EatAt(s: string, c: nat, expected: char): (r: Result<nat, Syntax>)
    requires c <= |s|
    ensures r.Success? <==> Ws(s, c) < |s| && s[Ws(s, c)] == expected
    ensures r.Success? ==> r.value == Ws(s, c) + 1
    ensures r.Failure? ==> r.error == Syntax(ExpectedSymbol(expected), Ws(s, c))
  {
    var k := Ws(s, c);
    if k < |s| && s[k] == expected then Success(k + 1) else Failure(Syntax(ExpectedSymbol(expected), k))
  }

  /** `hasElementSeparator()`: whether a comma follows the whitespace, and the cursor after it (and the whitespace after it). */
  function SeparatorAt(s: string, c: nat): (r: (bool, nat))
    requires c <= |s|
    ensures c <= r.1 <= |s|
    ensures r.0 <==> Ws(s, c) < |s| && s[Ws(s, c)] == ','
    ensures r.0 ==> r.1 == Ws(s, Ws(s, c) + 1) && r.1 > Ws(s, c)
    ensures !r.0 ==> r.1 == Ws(s, c)
  {
    var k := Ws(s, c);
    if k < |s| && s[k] == ',' then (true, Ws(s, k + 1)) else (false, k)
  }

  /** The closing `eat` of a collection, the collection built. */
  function CloseAt(s: string, c: nat, closing: char, v: Nbt): (r: Result<Parsed<Nbt>, Syntax>)
    requires c <= |s|
    ensures r.Success? ==> r.value.value == v && c < r.value.next <= |s|
  {
    var n :- EatAt(s, c, closing);
    Success(Parsed(v, n))
  }

  // ----- strings -----

  /**
   * The test of line 89 as written: `current != '\\' || current != quote` is
   * true whatever `current` is (it cannot equal both), so it reduces to `escaped`.
   */
  predicate RejectsEscape(escaped: bool, current: char, quote: char)
  {
    escaped && (current != '\\' || current != quote)
  }

  /** The loop of `parseQuotedString` from `i`, `acc` the text so far and `escaped` whether a backslash was just read. */
  function QuotedFrom(s: string, quote: char, i: nat, acc: string, escaped: bool): (r: Result<Parsed<string>, Syntax>)
    requires i <= |s|
    ensures r.Success? ==> i < r.value.next <= |s|
    ensures r.Failure? ==> i <= r.error.at <= |s|
    decreases |s| - i
  {
    if i >= |s| then Failure(Syntax(ExpectedEndOfQuote, |s|))
    else
      var current := s[i];
      if RejectsEscape(escaped, current, quote) then Failure(Syntax(InvalidEscape(current), i))
      else if current == '\\' && !escaped then QuotedFrom(s, quote, i + 1, acc, true)
      else if current == quote && !escaped then Success(Parsed(acc, i + 1))
      else QuotedFrom(s, quote, i + 1, acc + [current], false)
  }

  /** `parseQuotedString()` at `c`: the character there is the quote. */
  function QuotedAt(s: string, c: nat): (r: Result<Parsed<string>, Syntax>)
    requires c < |s|
    ensures r.Success? ==> c + 1 < r.value.next <= |s|
  {
    QuotedFrom(s, s[c], c + 1, "", false)
  }

  /** `parseUnquotedString()` at `c`. */
  function UnquotedAt(s: string, c: nat): (r: Parsed<string>)
    requires c <= |s|
    ensures c <= r.next <= |s|
  {
    Taken(s, c, UnquotedEnd(s, c))
  }

  /** `parseString()`: empty at the end of the input, quoted after a quote character, unquoted otherwise. */
  function StringAt(s: string, c: nat): (r: Result<Parsed<string>, Syntax>)
    requires c <= |s|
    ensures r.Success? ==> c <= r.value.next <= |s|
  {
    if c >= |s| then Success(Parsed("", c))
    else if s[c] == '"' || s[c] == '\'' then QuotedAt(s, c)
    else Success(UnquotedAt(s, c))
  }

  /** `parseKey()`: whitespace, then EXPECTED_KEY at the end of the input, else a string. */
  function KeyAt(s: string, c: nat): (r: Result<Parsed<string>, Syntax>)
    requires c <= |s|
    ensures r.Success? ==> c <= r.value.next <= |s|
    ensures Ws(s, c) == |s| ==> r == Failure(Syntax(ExpectedKey, |s|))
  {
    var k := Ws(s, c);
    if k >= |s| then Failure(Syntax(ExpectedKey, k)) else StringAt(s, k)
  }

  // ----- numbers -----

  /** The suffix letters, in either case: `b`, `s`, `l`, `f`, `d`. */
  function Suffix(c: char): char
  {
    if c == 'b' || c == 'B' then 'b'
    else if c == 's' || c == 'S' then 's'
    else if c == 'l' || c == 'L' then 'l'
    else if c == 'f' || c == 'F' then 'f'
    else if c == 'd' || c == 'D' then 'd'
    else '\0'
  }

  predicate HasPoint(text: string)
  {
    exists i :: 0 <= i < |text| && text[i] == '.'
  }

  /** The number the parser chosen by `suffix` makes of `text`, `None` for its NumberFormatException. */
  function NumberOf(text: string, suffix: char, fl: Floats): (r: Option<Nbt>)
    ensures r.Some? && suffix == 'b' ==> r.value.Byte?
    ensures r.Some? && suffix == 's' ==> r.value.Short?
    ensures r.Some? && suffix == 'l' ==> r.value.Long?
    ensures r.Some? && suffix == 'f' ==> r.value.Float?
    ensures r.Some? && suffix == 'd' ==> r.value.Double?
    ensures r.Some? && suffix !in "bslfd" ==> (r.value.Int? <==> !HasPoint(text)) && (r.value.Double? <==> HasPoint(text))
  {
    if suffix == 'b' then
      match ParseInteger(text, -0x80, 0x7F) case Some(x) => Some(Byte(x)) case None => None
    else if suffix == 's' then
      match ParseInteger(text, -0x8000, 0x7FFF) case Some(x) => Some(Short(x)) case None => None
    else if suffix == 'l' then
      match ParseInteger(text, -0x8000_0000_0000_0000, 0x7FFF_FFFF_FFFF_FFFF) case Some(x) => Some(Long(x)) case None => None
    else if suffix == 'f' then
      if DecimalSyntax(text) then Some(Float(fl.float(text))) else None
    else if suffix == 'd' || HasPoint(text) then
      if DecimalSyntax(text) then Some(Double(fl.double(text))) else None
    else
      match ParseInteger(text, -0x8000_0000, 0x7FFF_FFFF) case Some(x) => Some(Int(x)) case None => None
  }

  /**
   * `parseNumber()` at `c`: the characters `[0-9.-]`, then a suffix letter,
   * consumed when there is one; `None` when the chosen parser throws, with the
   * cursor where the exception leaves it.
   */
  function NumberAt(s: string, c: nat, fl: Floats): (r: Parsed<Option<Nbt>>)
    requires c <= |s|
    ensures c <= r.next <= |s|
    ensures r.value.Some? ==> c < r.next
  {
    var u := Taken(s, c, NumberEnd(s, c));
    var suffix := if u.next < |s| then Suffix(s[u.next]) else '\0';
    var hasSuffix := suffix != '\0';
    Parsed(NumberOf(u.value, suffix, fl), if hasSuffix then u.next + 1 else u.next)
  }

  /** `parseSimpleValue()` at `c`: a quoted string, a number, or an unquoted string, `true` and `false` being bytes. */
  function SimpleAt(s: string, c: nat, fl: Floats): (r: Result<Parsed<Nbt>, Syntax>)
    requires c < |s|
    ensures r.Success? ==> c < r.value.next <= |s| && r.value.value != End
  {
    var ch := s[c];
    if ch == '\'' || ch == '"' then
      var q :- QuotedAt(s, c);
      Success(Parsed(Str(q.value), q.next))
    else
      var n := if IsNumberChar(ch) then NumberAt(s, c, fl) else Parsed(None, c);
      if n.value.Some? then Success(Parsed(n.value.value, n.next))
      else
        var u := UnquotedAt(s, c);
        if u.value == "" then Failure(Syntax(ExpectedValue, u.next))
        else if u.value == "true" then Success(Parsed(ByteOfBool(true), u.next))
        else if u.value == "false" then Success(Parsed(ByteOfBool(false), u.next))
        else Success(Parsed(Str(u.value), u.next))
  }

  // ----- values and collections -----

  /**
   * `parseValue()` at `c`: after whitespace, `[` with `;` two places on is a
   * typed array, any other `[` a list, `{` a compound, anything else a simple
   * value; no input left is EXPECTED_VALUE.
   */
  function ValueAt(s: string, c: nat, fl: Floats): (r: Result<Parsed<Nbt>, Syntax>)
    requires c <= |s|
    ensures r.Success? ==> c < r.value.next <= |s| && r.value.value != End
    ensures Ws(s, c) == |s| ==> r == Failure(Syntax(ExpectedValue, |s|))
    decreases |s| - c, 2
  {
    var k := Ws(s, c);
    if k >= |s| then Failure(Syntax(ExpectedValue, k))
    else if s[k] == '[' then
      if k + 3 <= |s| && s[k + 2] == ';' then ArrayAt(s, k, fl) else ListAt(s, k, fl)
    else if s[k] == '{' then CompoundAt(s, k, fl)
    else SimpleAt(s, k, fl)
  }

  /** `parseList()` at `c`. */
  function ListAt(s: string, c: nat, fl: Floats): (r: Result<Parsed<Nbt>, Syntax>)
    requires c <= |s|
    ensures r.Success? ==> c < r.value.next <= |s| && r.value.value.List?
    decreases |s| - c, 1
  {
    var j :- EatAt(s, c, '[');
    ListItems(s, Ws(s, j), END, [], fl)
  }

  /**
   * The loop of `parseCollection` for a list, at `c`, the list so far of type
   * `t` holding `items`: the first element fixes the type, a later element of
   * another tag is LIST_MIXED at its start.
   */
  function ListItems(s: string, c: nat, t: Tag, items: seq<Nbt>, fl: Floats): (r: Result<Parsed<Nbt>, Syntax>)
    requires c <= |s|
    ensures r.Success? ==> c < r.value.next <= |s| && r.value.value.List?
    decreases |s| - c, 3
  {
    if c < |s| && s[c] != ']' then
      var v :- ValueAt(s, c, fl);
      var tag := TagOf(v.value);
      if t != END && tag != t then Failure(Syntax(ListMixed(tag, t), c))
      else
        var sep := SeparatorAt(s, v.next);
        if sep.0 then ListItems(s, sep.1, tag, items + [v.value], fl)
        else CloseAt(s, sep.1, ']', List(tag, items + [v.value]))
    else CloseAt(s, c, ']', List(t, items))
  }

  /** `parseCompound()` at `c`. */
  function CompoundAt(s: string, c: nat, fl: Floats): (r: Result<Parsed<Nbt>, Syntax>)
    requires c <= |s|
    ensures r.Success? ==> c < r.value.next <= |s| && r.value.value.Compound?
    decreases |s| - c, 1
  {
    var j :- EatAt(s, c, '{');
    Entries(s, Ws(s, j), map[], fl)
  }

  /** One entry of the compound loop at `c`: the key, `:`, whitespace, then the value. */
  function EntryAt(s: string, c: nat, fl: Floats): (r: Result<(string, Parsed<Nbt>), Syntax>)
    requires c <= |s|
    ensures r.Success? ==> c < r.value.1.next <= |s|
    decreases |s| - c, 2
  {
    var key :- KeyAt(s, c);
    var j :- EatAt(s, key.next, ':');
    var v :- ValueAt(s, Ws(s, j), fl);
    Success((key.value, v))
  }

  /** The loop of `parseCollection` for a compound: one entry after another; a repeated key keeps the later value. */
  function Entries(s: string, c: nat, m: map<string, Nbt>, fl: Floats): (r: Result<Parsed<Nbt>, Syntax>)
    requires c <= |s|
    ensures r.Success? ==> c < r.value.next <= |s| && r.value.value.Compound?
    decreases |s| - c, 3
  {
    if c < |s| && s[c] != '}' then
      var e :- EntryAt(s, c, fl);
      var sep := SeparatorAt(s, e.1.next);
      if sep.0 then Entries(s, sep.1, m[e.0 := e.1.value], fl)
      else CloseAt(s, sep.1, '}', Compound(m[e.0 := e.1.value]))
    else CloseAt(s, c, '}', Compound(m))
  }

  /** The array tag a type character selects, END for any other character. */
  function ArrayTag(c: char): (t: Tag)
  {
    if c == 'B' then BYTE else if c == 'I' then INT else if c == 'L' then LONG else END
  }

  /** `createArray`: the numbers of the elements, all of the array's element tag, in an array of that type. */
  function ArrayOf(t: Tag, xs: seq<Nbt>): (v: Nbt)
    requires t == BYTE || t == INT || t == LONG
    requires forall i :: 0 <= i < |xs| ==> TagOf(xs[i]) == t
  {
    assert forall i :: 0 <= i < |xs| ==> TagOf(xs[i]) == t;
    if t == BYTE then
      assert forall i :: 0 <= i < |xs| ==> xs[i].Byte? by {
        forall i | 0 <= i < |xs| ensures xs[i].Byte? { assert TagOf(xs[i]) == BYTE; }
      }
      ByteArray(ByteValues(xs))
    else if t == INT then
      assert forall i :: 0 <= i < |xs| ==> xs[i].Int? by {
        forall i | 0 <= i < |xs| ensures xs[i].Int? { assert TagOf(xs[i]) == INT; }
      }
      IntArray(IntValues(xs))
    else
      assert forall i :: 0 <= i < |xs| ==> xs[i].Long? by {
        forall i | 0 <= i < |xs| ensures xs[i].Long? { assert TagOf(xs[i]) == LONG; }
      }
      LongArray(LongValues(xs))
  }

  function ByteValues(xs: seq<Nbt>): (bs: seq<i8>)
    requires forall i :: 0 <= i < |xs| ==> xs[i].Byte?
    ensures |bs| == |xs| && forall i :: 0 <= i < |xs| ==> Byte(bs[i]) == xs[i]
  {
    if xs == [] then [] else ByteValues(xs[..|xs| - 1]) + [xs[|xs| - 1].byteValue]
  }

  function IntValues(xs: seq<Nbt>): (ns: seq<i32>)
    requires forall i :: 0 <= i < |xs| ==> xs[i].Int?
    ensures |ns| == |xs| && forall i :: 0 <= i < |xs| ==> Int(ns[i]) == xs[i]
  {
    if xs == [] then [] else IntValues(xs[..|xs| - 1]) + [xs[|xs| - 1].intValue]
  }

  function LongValues(xs: seq<Nbt>): (ls: seq<i64>)
    requires forall i :: 0 <= i < |xs| ==> xs[i].Long?
    ensures |ls| == |xs| && forall i :: 0 <= i < |xs| ==> Long(ls[i]) == xs[i]
  {
    if xs == [] then [] else LongValues(xs[..|xs| - 1]) + [xs[|xs| - 1].longValue]
  }

  /** `parseArray()` at `c`, where `[` stands with `;` two places on: `B`, `I` or `L`, else ARRAY_INVALID. */
  function ArrayAt(s: string, c: nat, fl: Floats): (r: Result<Parsed<Nbt>, Syntax>)
    requires c + 3 <= |s| && s[c] == '[' && s[c + 2] == ';'
    ensures r.Success? ==> c < r.value.next <= |s| && (r.value.value.ByteArray? || r.value.value.IntArray? || r.value.value.LongArray?)
    decreases |s| - c, 1
  {
    var j :- EatAt(s, c, '[');
    var t := ArrayTag(s[j]);
    if t == END then Failure(Syntax(ArrayInvalid(s[j]), j))
    else
      var k :- EatAt(s, j + 1, ';');
      ArrayItems(s, Ws(s, k), t, [], fl)
  }

  /** The element loop of `parseArray`: an element of another tag is ARRAY_MIXED at its start. */
  function ArrayItems(s: string, c: nat, t: Tag, xs: seq<Nbt>, fl: Floats): (r: Result<Parsed<Nbt>, Syntax>)
    requires c <= |s|
    requires t == BYTE || t == INT || t == LONG
    requires forall i :: 0 <= i < |xs| ==> TagOf(xs[i]) == t
    ensures r.Success? ==> c < r.value.next <= |s| && (r.value.value.ByteArray? || r.value.value.IntArray? || r.value.value.LongArray?)
    decreases |s| - c, 3
  {
    if c < |s| && s[c] != ']' then
      var v :- ValueAt(s, c, fl);
      if TagOf(v.value) != t then Failure(Syntax(ArrayMixed(TagOf(v.value), t), c))
      else
        var sep := SeparatorAt(s, v.next);
        if sep.0 then ArrayItems(s, sep.1, t, xs + [v.value], fl)
        else CloseAt(s, sep.1, ']', ArrayOf(t, xs + [v.value]))
    else CloseAt(s, c, ']', ArrayOf(t, xs))
  }

  /** `NBTParser.parse(input)`: one compound read from the trimmed input; whatever follows it is never looked at. */
  function ParseText(input: string, fl: Floats): (r: Result<Nbt, Syntax>)
    ensures r.Success? ==> r.value.Compound?
  {
    var p :- CompoundAt(Trim(input), 0, fl);
    Success(p.value)
  }
}
