/**
 * What the text parser makes of text: the strings and numbers the string
 * visitor writes read back, a one-entry compound makes the round trip, and the
 * parser's quirks as written — every backslash escape is rejected, and
 * whatever follows the compound is never looked at.
 */
module TextLaws {
  import opened Wrappers
  import opened Tags
  import opened Values
  import opened JavaInts
  import opened Decimals
  import opened Malformed
  import opened Readers
  import opened TextGrammar
  import opened QuotedStrings
  import opened Ordering
  import opened StringVisitor

  // ----- scans -----

  /** The number scan passes over number characters and stops at the first other one. */
  lemma {:induction false} NumberEndAt(s: string, c: nat, e: nat)
    requires c <= e < |s| && (forall j :: c <= j < e ==> IsNumberChar(s[j])) && !IsNumberChar(s[e])
    ensures NumberEnd(s, c) == e
    decreases e - c
  {
    if c < e {
      NumberEndAt(s, c + 1, e);
    }
  }

  /** The unquoted-string scan passes over unquoted characters and stops at the first other one. */
  lemma {:induction false} UnquotedEndAt(s: string, c: nat, e: nat)
    requires c <= e < |s| && (forall j :: c <= j < e ==> IsUnquotedChar(s[j])) && !IsUnquotedChar(s[e])
    ensures UnquotedEnd(s, c) == e
    decreases e - c
  {
    if c < e {
      UnquotedEndAt(s, c + 1, e);
    }
  }

  /** No whitespace to skip before a character that is not whitespace. */
  lemma WsStays(s: string, c: nat)
    requires c < |s| && !IsWhitespace(s[c])
    ensures Ws(s, c) == c
  {
  }

  // ----- quoted strings -----

  /** Characters other than a backslash and the quote are taken as they are, up to the closing quote. */
  lemma {:induction false} QuotedPlain(s: string, quote: char, i: nat, k: nat, acc: string)
    requires i <= k < |s| && s[k] == quote && quote != '\\'
    requires forall j :: i <= j < k ==> s[j] != '\\' && s[j] != quote
    ensures QuotedFrom(s, quote, i, acc, false) == Success(Parsed(acc + s[i..k], k + 1))
    decreases k - i
  {
    if i < k {
      QuotedPlain(s, quote, i + 1, k, acc + [s[i]]);
      assert acc + [s[i]] + s[i + 1..k] == acc + s[i..k];
    } else {
      assert acc + s[i..k] == acc;
    }
  }

  /**
   * The test of line 89 rejects every escape: the first backslash inside a
   * quoted string raises INVALID_ESCAPE on the character after it, whether
   * that is the quote, a backslash or anything else.
   */
  lemma {:induction false} EscapeRejected(s: string, quote: char, i: nat, k: nat, acc: string)
    requires i <= k && k + 1 < |s| && s[k] == '\\' && quote != '\\'
    requires forall j :: i <= j < k ==> s[j] != '\\' && s[j] != quote
    ensures QuotedFrom(s, quote, i, acc, false) == Failure(Syntax(InvalidEscape(s[k + 1]), k + 1))
    decreases k - i
  {
    if i < k {
      EscapeRejected(s, quote, i + 1, k, acc + [s[i]]);
    } else {
      assert QuotedFrom(s, quote, k + 1, acc, true) == Failure(Syntax(InvalidEscape(s[k + 1]), k + 1));
    }
  }

  /** Text without quotes, NUL or backslashes, quoted as the visitor quotes it, reads back as itself. */
  lemma QuotedReadsBack(t: string, rest: string)
    requires forall i :: 0 <= i < |t| ==> !IsQuote(t[i]) && t[i] != Nul && t[i] != '\\'
    ensures StringAt(Quoted(t) + rest, 0) == Success(Parsed(t, |t| + 2))
  {
    PlainTextUnchanged(t, |t|);
    assert t[..|t|] == t;
    var s := Quoted(t) + rest;
    assert s == ['"'] + t + ['"'] + rest;
    assert s[|t| + 1] == '"';
    QuotedPlain(s, '"', 1, |t| + 1, "");
    assert s[1..|t| + 1] == t && "" + t == t;
    assert QuotedAt(s, 0) == QuotedFrom(s, '"', 1, "", false);
  }

  /**
   * A string holding both kinds of quote does not read back, shown for `a"b'`:
   * the visitor escapes the later quote with a backslash, and the parser
   * rejects the escape.
   */
  lemma BothQuotesUnreadable()
    ensures Quoted("a\"b'") == "'a\"b\\''"
    ensures StringAt(Quoted("a\"b'"), 0) == Failure(Syntax(InvalidEscape('\''), 5))
  {
    var t := "a\"b'";
    assert FirstQuote(t) == Some(1) by {
      assert t[1..][0] == '"';
    }
    assert Escaped(t, |t|) == "a\"b\\'" by {
      assert Escaped(t, 1) == "a";
      assert Escaped(t, 2) == "a\"";
      assert Escaped(t, 3) == "a\"b";
    }
    var s := "'a\"b\\''";
    EscapeRejected(s, '\'', 1, 4, "");
  }

  // ----- numbers -----

  /** The text of an integer: a minus sign or a digit first, then digits; all number characters, none whitespace. */
  lemma IntTextChars(x: int)
    ensures |IntText(x)| >= 1 && (x >= 0 ==> IsDigit(IntText(x)[0]))
    ensures forall i :: 0 <= i < |IntText(x)| ==> IsNumberChar(IntText(x)[i]) && IntText(x)[i] != '.'
    ensures !HasPoint(IntText(x)) && !IsWhitespace(IntText(x)[0]) && !IsQuote(IntText(x)[0])
  {
    var t := IntText(x);
    if x < 0 {
      var d := Digits(-x);
      assert t == "-" + d;
      assert forall i :: 1 <= i < |t| ==> t[i] == d[i - 1];
    }
  }

  /** `t` stands in the input from `c` on. */
  predicate TextAt(s: string, c: nat, t: string)
  {
    c + |t| <= |s| && forall i :: 0 <= i < |t| ==> s[c + i] == t[i]
  }

  /** A byte, short, int or long: a value the visitor writes as a decimal and a suffix letter. */
  predicate IsInteger(v: Nbt)
  {
    v.Byte? || v.Short? || v.Int? || v.Long?
  }

  function IntegerOf(v: Nbt): int
    requires IsInteger(v)
  {
    if v.Byte? then v.byteValue else if v.Short? then v.shortValue else if v.Int? then v.intValue else v.longValue
  }

  /** The suffix the visitor writes after the number: none for an int. */
  function SuffixOf(v: Nbt): string
    requires IsInteger(v)
  {
    if v.Byte? then "b" else if v.Short? then "s" else if v.Long? then "L" else ""
  }

  /** What the visitor writes for an integer value. */
  lemma IntegerText(v: Nbt, tx: Texts)
    requires IsInteger(v)
    ensures Render(v, tx) == IntText(IntegerOf(v)) + SuffixOf(v)
  {
    assert IntText(IntegerOf(v)) + "" == IntText(IntegerOf(v));
  }

  /** The letter `parseNumber` switches on for each integer kind, `\0` for none. */
  function SuffixLetter(v: Nbt): char
    requires IsInteger(v)
  {
    if v.Byte? then 'b' else if v.Short? then 's' else if v.Long? then 'l' else '\0'
  }

  /**
   * `t` is text that `readUntil` takes whole as a number and `suf` at most one
   * suffix letter after it, and the parser the letter chooses makes `v` of `t`.
   */
  predicate Numeral(t: string, suf: string, v: Nbt, fl: Floats)
  {
    |t| >= 1 && (forall i :: 0 <= i < |t| ==> IsNumberChar(t[i])) &&
    |suf| <= 1 && (suf != [] ==> Suffix(suf[0]) != '\0') &&
    NumberOf(t, if suf == [] then '\0' else Suffix(suf[0]), fl) == Some(v)
  }

  /** The parser chosen by an integer's suffix makes the integer back from its decimal text. */
  lemma IntTextNumber(v: Nbt, fl: Floats)
    requires IsInteger(v)
    ensures NumberOf(IntText(IntegerOf(v)), SuffixLetter(v), fl) == Some(v)
  {
    var x := IntegerOf(v);
    if v.Byte? {
      ParseIntText(x, -0x80, 0x7F);
    } else if v.Short? {
      ParseIntText(x, -0x8000, 0x7FFF);
    } else if v.Long? {
      ParseIntText(x, -0x8000_0000_0000_0000, 0x7FFF_FFFF_FFFF_FFFF);
    } else {
      IntTextChars(x);
      ParseIntText(x, -0x8000_0000, 0x7FFF_FFFF);
    }
  }

  /** The visitor's text of a byte, short, int or long, with its suffix, is a numeral for the same value. */
  lemma IntegerNumeral(v: Nbt, fl: Floats)
    requires IsInteger(v)
    ensures Numeral(IntText(IntegerOf(v)), SuffixOf(v), v, fl)
  {
    IntTextChars(IntegerOf(v));
    IntTextNumber(v, fl);
  }

  /** `readUntil` over a numeral's text, where the character after it ends the number. */
  lemma NumeralScanned(t: string, s: string, c: nat)
    requires t != [] && forall i :: 0 <= i < |t| ==> IsNumberChar(t[i])
    requires TextAt(s, c, t) && c + |t| < |s| && !IsNumberChar(s[c + |t|])
    ensures Taken(s, c, NumberEnd(s, c)) == Parsed(t, c + |t|)
  {
    forall j | c <= j < c + |t| ensures IsNumberChar(s[j]) {
      assert s[c + (j - c)] == t[j - c];
    }
    NumberEndAt(s, c, c + |t|);
    assert s[c..c + |t|] == t;
  }

  /** `parseNumber` reads the number characters `t`, then looks at the suffix letter after them. */
  lemma NumberSplit(s: string, c: nat, fl: Floats, t: string, suffix: char)
    requires c <= |s| && Taken(s, c, NumberEnd(s, c)) == Parsed(t, c + |t|)
    requires c + |t| < |s| && Suffix(s[c + |t|]) == suffix
    ensures NumberAt(s, c, fl) == Parsed(NumberOf(t, suffix, fl), if suffix != '\0' then c + |t| + 1 else c + |t|)
  {
  }

  /**
   * `parseNumber` on a numeral and its suffix letter: the numeral's value,
   * the cursor after the suffix. Without a suffix, the character after the
   * number must end it without being a suffix letter.
   */
  lemma NumeralRead(t: string, suf: string, v: Nbt, s: string, c: nat, e: nat, n: nat, fl: Floats)
    requires Numeral(t, suf, v, fl)
    requires e == c + |t| && n == e + |suf|
    requires TextAt(s, c, t) && TextAt(s, e, suf) && e < |s|
    requires suf == [] ==> !IsNumberChar(s[e]) && Suffix(s[e]) == '\0'
    ensures NumberAt(s, c, fl) == Parsed(Some(v), n)
  {
    if suf != [] {
      assert s[e + 0] == suf[0];
    }
    NumeralScanned(t, s, c);
    NumberSplit(s, c, fl, t, Suffix(s[e]));
  }

  /**
   * `parseValue` on a numeral and its suffix letter standing before a `}`:
   * the numeral's value, the cursor after the suffix, and no whitespace
   * before the value or after it.
   */
  lemma NumeralValue(t: string, suf: string, v: Nbt, s: string, c: nat, e: nat, n: nat, fl: Floats)
    requires Numeral(t, suf, v, fl)
    requires e == c + |t| && n == e + |suf|
    requires TextAt(s, c, t) && TextAt(s, e, suf) && n < |s| && s[n] == '}'
    ensures Ws(s, c) == c && ValueAt(s, c, fl) == Success(Parsed(v, n)) && Ws(s, n) == n
  {
    assert s[c + 0] == t[0];
    WsStays(s, c);
    NumeralRead(t, suf, v, s, c, e, n, fl);
    ValueIsSimple(s, c, fl);
    SimpleIsNumber(s, c, fl, v, n);
    WsStays(s, n);
  }

  /** `parseValue` hands a character other than `[` and `{` to `parseSimpleValue`. */
  lemma ValueIsSimple(s: string, c: nat, fl: Floats)
    requires c < |s| && Ws(s, c) == c && s[c] != '[' && s[c] != '{'
    ensures ValueAt(s, c, fl) == SimpleAt(s, c, fl)
  {
  }

  /** `parseSimpleValue` keeps a number when `parseNumber` makes one. */
  lemma SimpleIsNumber(s: string, c: nat, fl: Floats, v: Nbt, n: nat)
    requires c < |s| && !IsQuote(s[c]) && IsNumberChar(s[c]) && NumberAt(s, c, fl) == Parsed(Some(v), n)
    ensures SimpleAt(s, c, fl) == Success(Parsed(v, n))
  {
  }

  // ----- a compound -----

  /** Trimming keeps every character up to the last one above U+0020. */
  lemma {:induction false} TrimEndKeeps(s: string, j: nat)
    requires j < |s| && s[j] > ' '
    ensures j < |TrimEnd(s)|
    decreases |s|
  {
    if s[|s| - 1] <= ' ' {
      TrimEndKeeps(s[..|s| - 1], j);
    }
  }

  /** The text of a compound with one bare key and a byte, short, int or long. */
  lemma SingleEntryText(k: string, v: Nbt, tx: Texts)
    requires IsBareKey(k)
    ensures Render(Compound(map[k := v]), tx) == "{" + k + ":" + Render(v, tx) + "}"
  {
    var c := Compound(map[k := v]);
    CompoundRendered(c, tx);
    SingleEntryPart(k, v, tx);
    JoinedOne(k + ":" + Render(v, tx));
    Braced(k, Render(v, tx));
  }

  /** A compound is written as its parts between braces. */
  lemma CompoundRendered(c: Nbt, tx: Texts)
    requires c.Compound?
    ensures Render(c, tx) == "{" + Joined(CompoundParts(c, tx)) + "}"
  {
  }

  /** One part is joined without a comma. */
  lemma JoinedOne(part: string)
    ensures Joined([part]) == part
  {
  }

  lemma Braced(k: string, r: string)
    ensures "{" + (k + ":" + r) + "}" == "{" + k + ":" + r + "}"
  {
  }

  /** The one part the visitor lists for a one-entry compound with a bare key. */
  lemma SingleEntryPart(k: string, v: Nbt, tx: Texts)
    requires IsBareKey(k)
    ensures CompoundParts(Compound(map[k := v]), tx) == [k + ":" + Render(v, tx)]
  {
    var c := Compound(map[k := v]);
    OnlyKeySorted(k, v);
    CompoundPartAt(c, tx, 0);
    KeyLeftBare(k);
  }

  /** A single key is the whole sorted key list. */
  lemma OnlyKeySorted(k: string, v: Nbt)
    ensures SortedKeys(map[k := v].Keys) == [k]
  {
    var ks := SortedKeys(map[k := v].Keys);
    assert |ks| == 1 && ks[0] in map[k := v].Keys;
  }

  /**
   * The input holds `{`, the key `k`, `:`, the numeral `t` at `j`, its suffix
   * letter `suf` at `e`, and `}` at `n`.
   */
  predicate EntryLayout(s: string, k: string, t: string, suf: string, j: nat, e: nat, n: nat)
  {
    j == |k| + 2 && e == j + |t| && n == e + |suf| && n < |s| &&
    s[0] == '{' && TextAt(s, 1, k) && s[|k| + 1] == ':' && TextAt(s, j, t) && TextAt(s, e, suf) && s[n] == '}'
  }

  /** An input that begins with `{key:` numeral `}` has that layout. */
  lemma SingleEntryLayout(k: string, t: string, suf: string, s: string, j: nat, e: nat, n: nat)
    requires j == |k| + 2 && e == j + |t| && n == e + |suf|
    requires var w := "{" + k + ":" + (t + suf) + "}"; |w| <= |s| && s[..|w|] == w
    ensures EntryLayout(s, k, t, suf, j, e, n)
  {
    var w := "{" + k + ":" + (t + suf) + "}";
    assert s[0] == w[0] && s[|k| + 1] == w[|k| + 1] && s[n] == w[n];
    forall i | 0 <= i < |k| ensures s[1 + i] == k[i] {
      assert s[1 + i] == w[1 + i];
    }
    forall i | 0 <= i < |t| ensures s[j + i] == t[i] {
      assert s[j + i] == w[j + i];
    }
    forall i | 0 <= i < |suf| ensures s[e + i] == suf[i] {
      assert s[e + i] == w[e + i];
    }
  }

  /** `{`, then a bare key up to `:`, then `:`. */
  lemma BareKeyRead(k: string, s: string)
    requires IsBareKey(k) && |k| + 1 < |s| && s[0] == '{' && TextAt(s, 1, k) && s[|k| + 1] == ':'
    ensures s[1] != '}'
    ensures EatAt(s, 0, '{') == Success(1) && Ws(s, 1) == 1
    ensures KeyAt(s, 1) == Success(Parsed(k, |k| + 1))
    ensures EatAt(s, |k| + 1, ':') == Success(|k| + 2)
  {
    var colon := |k| + 1;
    forall j | 1 <= j < colon ensures IsUnquotedChar(s[j]) {
      assert s[1 + (j - 1)] == k[j - 1];
      assert IsBareChar(k[j - 1]);
    }
    assert s[1 + 0] == k[0];
    WsStays(s, 0);
    WsStays(s, 1);
    WsStays(s, colon);
    UnquotedEndAt(s, 1, colon);
    assert s[1..colon] == k;
  }

  /** The entry loop over a single entry: key, `:`, value, then no comma but the closing brace. */
  lemma OnlyEntry(s: string, c: nat, key: string, j0: nat, j: nat, v: Nbt, n: nat, fl: Floats)
    requires c < |s| && s[c] != '}' && j0 <= |s| && j <= |s| && n < |s|
    requires KeyAt(s, c) == Success(Parsed(key, j0)) && EatAt(s, j0, ':') == Success(j)
    requires ValueAt(s, Ws(s, j), fl) == Success(Parsed(v, n))
    requires Ws(s, n) == n && s[n] == '}'
    ensures Entries(s, c, map[], fl) == Success(Parsed(Compound(map[key := v]), n + 1))
  {
    assert SeparatorAt(s, n) == (false, n);
    assert map[][key := v] == map[key := v];
    Closes(s, n, '}', Compound(map[key := v]));
  }

  /** The closing `eat` where the closing character stands. */
  lemma Closes(s: string, n: nat, closing: char, v: Nbt)
    requires n < |s| && Ws(s, n) == n && s[n] == closing
    ensures CloseAt(s, n, closing, v) == Success(Parsed(v, n + 1))
  {
    assert EatAt(s, n, closing) == Success(n + 1);
  }

  /**
   * Where `{key:` stands at the start of the input and a value `v` is read
   * from after the `:` up to a `}`, the compound is read from it and the
   * cursor stops after its `}`.
   */
  lemma SingleEntryParses(k: string, v: Nbt, s: string, n: nat, fl: Floats)
    requires IsBareKey(k)
    requires |k| + 2 <= n < |s| && s[0] == '{' && TextAt(s, 1, k) && s[|k| + 1] == ':'
    requires Ws(s, |k| + 2) == |k| + 2 && ValueAt(s, |k| + 2, fl) == Success(Parsed(v, n))
    requires Ws(s, n) == n && s[n] == '}'
    ensures CompoundAt(s, 0, fl) == Success(Parsed(Compound(map[k := v]), n + 1))
  {
    BareKeyRead(k, s);
    OnlyEntry(s, 1, k, |k| + 1, |k| + 2, v, n, fl);
    CompoundStart(s, fl);
  }

  /** `parseCompound` eats `{` and the whitespace after it, then runs the entry loop. */
  lemma CompoundStart(s: string, fl: Floats)
    requires EatAt(s, 0, '{') == Success(1) && Ws(s, 1) == 1
    ensures CompoundAt(s, 0, fl) == Entries(s, 1, map[], fl)
  {
  }

  /** A text that starts and ends above U+0020 survives `trim()` of itself followed by anything. */
  lemma TrimKeepsFront(t: string, rest: string)
    requires t != [] && t[0] > ' ' && t[|t| - 1] > ' '
    ensures |t| <= |Trim(t + rest)| && Trim(t + rest)[..|t|] == t
  {
    var s := t + rest;
    assert s[0] == t[0];
    assert TrimStart(s) == s;
    assert s[|t| - 1] == t[|t| - 1];
    TrimEndKeeps(s, |t| - 1);
    var trimmed := TrimEnd(s);
    assert trimmed == s[..|trimmed|];
    assert trimmed[..|t|] == s[..|t|] == t;
  }

  /** Trimmed, `{key:` numeral `}` followed by anything still begins with it, laid out piece by piece. */
  lemma TrimmedLayout(k: string, t: string, suf: string, rest: string, j: nat, e: nat, n: nat)
    requires j == |k| + 2 && e == j + |t| && n == e + |suf|
    ensures EntryLayout(Trim("{" + k + ":" + (t + suf) + "}" + rest), k, t, suf, j, e, n)
  {
    var w := "{" + k + ":" + (t + suf) + "}";
    assert w[0] == '{' && w[|w| - 1] == '}';
    TrimKeepsFront(w, rest);
    SingleEntryLayout(k, t, suf, Trim(w + rest), j, e, n);
  }

  /** `NBTParser.parse` on `{key:` numeral `}` and whatever follows: the one-entry compound. */
  lemma SingleEntryTextParses(k: string, t: string, suf: string, v: Nbt, rest: string, fl: Floats)
    requires IsBareKey(k) && Numeral(t, suf, v, fl)
    ensures ParseText("{" + k + ":" + (t + suf) + "}" + rest, fl) == Success(Compound(map[k := v]))
  {
    var input := "{" + k + ":" + (t + suf) + "}" + rest;
    var j, e, n := |k| + 2, |k| + 2 + |t|, |k| + 2 + |t| + |suf|;
    var s := Trim(input);
    TrimmedLayout(k, t, suf, rest, j, e, n);
    NumeralValue(t, suf, v, s, j, e, n, fl);
    SingleEntryParses(k, v, s, n, fl);
  }

  /**
   * A compound of one bare key and a number, as the visitor writes it, parses
   * back to the same compound — whatever text follows it, since the parser
   * never checks that the input is used up.
   */
  lemma SingleEntryRoundTrip(k: string, v: Nbt, tx: Texts, rest: string, fl: Floats)
    requires IsBareKey(k) && IsInteger(v)
    ensures ParseText(Render(Compound(map[k := v]), tx) + rest, fl) == Success(Compound(map[k := v]))
  {
    IntegerText(v, tx);
    SingleEntryText(k, v, tx);
    IntegerNumeral(v, fl);
    SingleEntryTextParses(k, IntText(IntegerOf(v)), SuffixOf(v), v, rest, fl);
  }
}
