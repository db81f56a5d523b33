/**
 * The text round trip: a compound the string visitor writes is read back by
 * the text parser as the same compound, whatever text follows it. The values
 * covered are the integers, the three numeric arrays, strings without a
 * backslash or NUL that do not hold both kinds of quote, lists whose elements
 * share the first one's tag (an empty list typed END) and compounds whose keys
 * are bare or quotable the same way. Floats and doubles are left out because
 * their text is a parameter of the model; the values outside the domain that
 * do not read back are shown by the counterexamples at the end.
 */
module TextRoundTrip {
  import opened Wrappers
  import opened Tags
  import opened Values
  import opened Decimals
  import opened Malformed
  import opened Readers
  import opened TextGrammar
  import opened QuotedStrings
  import opened Ordering
  import opened StringVisitor
  import opened TextLaws

  // ----- the domain -----

  /** Text the visitor quotes without any backslash: no backslash, no NUL, and not both kinds of quote. */
  predicate PlainText(t: string)
  {
    (forall i :: 0 <= i < |t| ==> t[i] != '\\' && t[i] != Nul)
    && ((forall i :: 0 <= i < |t| ==> t[i] != '"') || (forall i :: 0 <= i < |t| ==> t[i] != '\''))
  }

  /** A key written bare, or quoted without a backslash. */
  predicate TextualKey(k: string)
  {
    IsBareKey(k) || PlainText(k)
  }

  /**
   * The values whose text reads back as themselves: no END, float or double
   * anywhere; plain strings; lists typed by their first element, all of whose
   * elements share that tag, and whose first element is not a string starting
   * with `;`; compounds with textual keys.
   */
  predicate Textual(v: Nbt)
    decreases v
  {
    match v
    case End => false
    case Float(_) => false
    case Double(_) => false
    case Str(t) => PlainText(t)
    case List(t, xs) =>
      t == (if xs == [] then END else TagOf(xs[0]))
      && (forall i :: 0 <= i < |xs| ==> TagOf(xs[i]) == t && Textual(xs[i]))
      && (xs != [] && xs[0].Str? && xs[0].text != [] ==> xs[0].text[0] != ';')
    case Compound(m) => forall k :: k in m ==> TextualKey(k) && Textual(m[k])
    case _ => true
  }

  /** The characters that follow a value inside a collection. */
  predicate IsCloser(ch: char)
  {
    ch == ',' || ch == ']' || ch == '}'
  }

  /** The characters a textual value's text starts with. */
  predicate IsStartChar(ch: char)
  {
    ch == '[' || ch == '{' || IsQuote(ch) || ch == '-' || IsDigit(ch)
  }

  // ----- the parser's loops, one step at a time -----

  /*
   * The parse functions below are the grammar's own, under names that are not
   * recursive: a statement about one of them opens a single step of the
   * parser, so each lemma about a loop reasons about one step at a time.
   */

  ghost function ValueFrom(s: string, c: nat, fl: Floats): Result<Parsed<Nbt>, Syntax>
    requires c <= |s|
  {
    ValueAt(s, c, fl)
  }

  ghost function ListFrom(s: string, c: nat, t: Tag, items: seq<Nbt>, fl: Floats): Result<Parsed<Nbt>, Syntax>
    requires c <= |s|
  {
    ListItems(s, c, t, items, fl)
  }

  ghost function ArrayFrom(s: string, c: nat, t: Tag, xs: seq<Nbt>, fl: Floats): Result<Parsed<Nbt>, Syntax>
    requires c <= |s| && (t == BYTE || t == INT || t == LONG)
    requires forall i :: 0 <= i < |xs| ==> TagOf(xs[i]) == t
  {
    ArrayItems(s, c, t, xs, fl)
  }

  ghost function CompoundFrom(s: string, c: nat, fl: Floats): Result<Parsed<Nbt>, Syntax>
    requires c <= |s|
  {
    CompoundAt(s, c, fl)
  }

  ghost function EntryFrom(s: string, c: nat, fl: Floats): Result<(string, Parsed<Nbt>), Syntax>
    requires c <= |s|
  {
    EntryAt(s, c, fl)
  }

  ghost function EntriesFrom(s: string, c: nat, m: map<string, Nbt>, fl: Floats): Result<Parsed<Nbt>, Syntax>
    requires c <= |s|
  {
    Entries(s, c, m, fl)
  }

  // ----- text laid out in the input -----

  /** Text standing at `c` is its first part at `c` and its second part right after. */
  lemma {:induction false} TextAtConcat(s: string, c: nat, a: string, b: string)
    ensures TextAt(s, c, a + b) <==> TextAt(s, c, a) && TextAt(s, c + |a|, b)
  {
    if TextAt(s, c, a) && TextAt(s, c + |a|, b) {
      forall i | 0 <= i < |a + b| ensures s[c + i] == (a + b)[i] {
        if i >= |a| {
          assert s[c + |a| + (i - |a|)] == b[i - |a|];
        }
      }
    }
    if TextAt(s, c, a + b) {
      forall i | 0 <= i < |a| ensures s[c + i] == a[i] {
        assert s[c + i] == (a + b)[i];
      }
      forall i | 0 <= i < |b| ensures s[c + |a| + i] == b[i] {
        assert s[c + (|a| + i)] == (a + b)[|a| + i];
      }
    }
  }

  /** The character of a text standing at `c`. */
  lemma {:induction false} TextAtChar(s: string, c: nat, t: string, i: nat)
    requires TextAt(s, c, t) && i < |t|
    ensures c + i < |s| && s[c + i] == t[i]
  {
  }

  /** The parts from the `i`-th on, with a comma between each two: `Joined` read from the front. */
  function JoinedFrom(parts: seq<string>, i: nat): string
    requires i < |parts|
    decreases |parts| - i
  {
    if i + 1 == |parts| then parts[i] else parts[i] + "," + JoinedFrom(parts, i + 1)
  }

  /** Reading the joined parts from the front ends with the last part after a comma. */
  lemma {:induction false} JoinedFromSnoc(parts: seq<string>, i: nat)
    requires i + 1 < |parts|
    ensures JoinedFrom(parts, i) == JoinedFrom(parts[..|parts| - 1], i) + "," + parts[|parts| - 1]
    decreases |parts| - i
  {
    var init := parts[..|parts| - 1];
    if i + 2 < |parts| {
      JoinedFromSnoc(parts, i + 1);
    }
  }

  /** `Joined` and `JoinedFrom` agree on a non-empty list of parts. */
  lemma {:induction false} JoinedFront(parts: seq<string>)
    requires parts != []
    ensures Joined(parts) == JoinedFrom(parts, 0)
    decreases |parts|
  {
    if |parts| > 1 {
      var init := parts[..|parts| - 1];
      JoinedFront(init);
      JoinedFromSnoc(parts, 0);
    }
  }

  /**
   * The joined parts from `i` on, standing at `p`: part `i` at `p`, and either
   * a comma and the rest after it, or nothing more.
   */
  lemma {:induction false} JoinedFromAt(s: string, p: nat, parts: seq<string>, i: nat)
    requires i < |parts| && TextAt(s, p, JoinedFrom(parts, i))
    ensures TextAt(s, p, parts[i])
    ensures i + 1 == |parts| ==> |JoinedFrom(parts, i)| == |parts[i]|
    ensures i + 1 < |parts| ==>
      |JoinedFrom(parts, i)| == |parts[i]| + 1 + |JoinedFrom(parts, i + 1)|
      && s[p + |parts[i]|] == ',' && TextAt(s, p + |parts[i]| + 1, JoinedFrom(parts, i + 1))
  {
    if i + 1 < |parts| {
      TextAtConcat(s, p, parts[i] + ",", JoinedFrom(parts, i + 1));
      TextAtConcat(s, p, parts[i], ",");
      TextAtChar(s, p + |parts[i]|, ",", 0);
    }
  }

  /** Parts `i` onwards standing at `c`, separated by single commas, the last one ending at `n`. */
  ghost predicate JoinedAt(s: string, c: nat, n: nat, parts: seq<string>, i: nat)
    decreases |parts| - i
  {
    i < |parts| && c <= n && TextAt(s, c, parts[i])
    && if i + 1 == |parts| then n == c + |parts[i]|
       else c + |parts[i]| < |s| && s[c + |parts[i]|] == ',' && JoinedAt(s, c + |parts[i]| + 1, n, parts, i + 1)
  }

  /** The joined text of parts `i` onwards, standing at `p`, lays them out one by one. */
  lemma {:induction false} JoinedFromLaid(s: string, p: nat, parts: seq<string>, i: nat)
    requires i < |parts| && TextAt(s, p, JoinedFrom(parts, i))
    ensures JoinedAt(s, p, p + |JoinedFrom(parts, i)|, parts, i)
    decreases |parts| - i
  {
    JoinedFromAt(s, p, parts, i);
    if i + 1 < |parts| {
      JoinedFromLaid(s, p + |parts[i]| + 1, parts, i + 1);
    }
  }

  // ----- quoted text -----

  /** A plain text is quoted by its delimiter alone, and the delimiter does not occur in it. */
  lemma {:induction false} PlainQuoted(t: string)
    requires PlainText(t)
    ensures Quoted(t) == [Delimiter(t)] + t + [Delimiter(t)]
    ensures forall i :: 0 <= i < |t| ==> t[i] != Delimiter(t) && t[i] != '\\'
  {
    var d := Delimiter(t);
    match FirstQuote(t) {
      case None =>
      case Some(f) =>
        if t[f] == '"' {
          assert forall i :: 0 <= i < |t| ==> t[i] != '\'';
        }
    }
    assert forall i :: 0 <= i < |t| ==> !NeedsBackslash(t, i);
    PlainEscaped(t, |t|);
    assert t[..|t|] == t;
  }

  /** Where no character needs a backslash, escaping leaves the text as it is. */
  lemma {:induction false} PlainEscaped(t: string, n: nat)
    requires n <= |t| && forall i :: 0 <= i < |t| ==> !NeedsBackslash(t, i)
    ensures Escaped(t, n) == t[..n]
  {
    if n > 0 {
      PlainEscaped(t, n - 1);
      assert t[..n] == t[..n - 1] + [t[n - 1]];
    }
  }

  /** A plain text quoted at `c` reads back as itself, the cursor after the closing delimiter. */
  lemma {:induction false} QuotedReads(t: string, s: string, c: nat, n: nat)
    requires PlainText(t) && TextAt(s, c, Quoted(t)) && n == c + |Quoted(t)|
    ensures IsQuote(s[c]) && QuotedAt(s, c) == Success(Parsed(t, n))
  {
    PlainQuoted(t);
    var d := Delimiter(t);
    var k := c + 1 + |t|;
    TextAtConcat(s, c, [d] + t, [d]);
    TextAtConcat(s, c, [d], t);
    TextAtChar(s, c, [d], 0);
    TextAtChar(s, k, [d], 0);
    forall j | c + 1 <= j < k ensures s[j] != '\\' && s[j] != d {
      TextAtChar(s, c + 1, t, j - (c + 1));
    }
    QuotedPlain(s, d, c + 1, k, "");
    assert s[c + 1..k] == t by {
      forall j | 0 <= j < |t| ensures s[c + 1..k][j] == t[j] {
        TextAtChar(s, c + 1, t, j);
      }
    }
    assert "" + t == t;
  }

  // ----- numbers -----

  /** A numeral and its suffix letter, standing before a closer, are read by `parseValue` as the numeral's value. */
  lemma {:induction false} NumeralValueAt(t: string, suf: string, v: Nbt, s: string, c: nat, n: nat, fl: Floats)
    requires Numeral(t, suf, v, fl) && TextAt(s, c, t + suf) && n == c + |t| + |suf|
    requires n < |s| && IsCloser(s[n])
    ensures Ws(s, c) == c && ValueFrom(s, c, fl) == Success(Parsed(v, n))
  {
    TextAtConcat(s, c, t, suf);
    TextAtChar(s, c, t, 0);
    NumeralRead(t, suf, v, s, c, c + |t|, n, fl);
    NumberValueAt(s, c, v, n, fl);
  }

  /** Where `parseNumber` makes `v` from a number character, `parseValue` reads `v` too. */
  lemma {:induction false} NumberValueAt(s: string, c: nat, v: Nbt, n: nat, fl: Floats)
    requires c < |s| && IsNumberChar(s[c]) && NumberAt(s, c, fl) == Parsed(Some(v), n)
    ensures Ws(s, c) == c && ValueFrom(s, c, fl) == Success(Parsed(v, n))
  {
    WsStays(s, c);
    ValueIsSimple(s, c, fl);
    SimpleIsNumber(s, c, fl, v, n);
  }

  /** An array element's text: its decimal and the array's suffix letter, `B`, none or `L`. */
  lemma {:induction false} ArrayElementNumeral(e: Nbt, suf: string, fl: Floats)
    requires (e.Byte? && suf == "B") || (e.Int? && suf == "") || (e.Long? && suf == "L")
    ensures Numeral(IntText(IntegerOf(e)), suf, e, fl)
  {
    IntTextChars(IntegerOf(e));
    IntTextNumber(e, fl);
  }

  // ----- a part read wherever it stands -----

  /** What an item of a collection starts with: neither whitespace nor a closer. */
  predicate ItemStart(ch: char)
  {
    !IsWhitespace(ch) && !IsCloser(ch)
  }

  /** Wherever the part stands with a closer right after it, `parseValue` reads it as `e`, up to the closer. */
  ghost predicate PartReads(part: string, e: Nbt, fl: Floats)
  {
    forall s: string, c: nat {:trigger TextAt(s, c, part), ValueFrom(s, c, fl)} ::
      TextAt(s, c, part) && c + |part| < |s| && IsCloser(s[c + |part|]) ==>
        ItemStart(s[c]) && ValueFrom(s, c, fl) == Success(Parsed(e, c + |part|))
  }

  /** A part that reads back, standing before a closer. */
  lemma {:induction false} PartStep(s: string, c: nat, q: nat, part: string, e: Nbt, fl: Floats)
    requires TextAt(s, c, part) && q == c + |part| && q < |s| && IsCloser(s[q]) && PartReads(part, e, fl)
    ensures c < |s| && ItemStart(s[c]) && ValueFrom(s, c, fl) == Success(Parsed(e, q))
  {
    ghost var read := ValueFrom(s, c, fl);
  }

  /** A numeral and its suffix letter read back wherever they stand before a closer. */
  lemma {:induction false} NumeralPartReads(t: string, suf: string, e: Nbt, fl: Floats)
    requires Numeral(t, suf, e, fl)
    ensures PartReads(t + suf, e, fl)
  {
    forall s: string, c: nat | TextAt(s, c, t + suf) && c + |t + suf| < |s| && IsCloser(s[c + |t + suf|])
      ensures ItemStart(s[c]) && ValueFrom(s, c, fl) == Success(Parsed(e, c + |t + suf|))
    {
      TextAtConcat(s, c, t, suf);
      TextAtChar(s, c, t, 0);
      NumeralValueAt(t, suf, e, s, c, c + |t| + |suf|, fl);
    }
  }

  /** A byte, short, int or long reads back wherever it stands before a closer. */
  lemma {:induction false} IntegerPartReads(v: Nbt, tx: Texts, fl: Floats)
    requires IsInteger(v)
    ensures PartReads(Render(v, tx), v, fl)
  {
    IntegerText(v, tx);
    IntegerNumeral(v, fl);
    NumeralPartReads(IntText(IntegerOf(v)), SuffixOf(v), v, fl);
  }

  /** A plain string, quoted, reads back wherever it stands before a closer. */
  lemma {:induction false} StringPartReads(t: string, tx: Texts, fl: Floats)
    requires PlainText(t)
    ensures PartReads(Render(Str(t), tx), Str(t), fl)
  {
    var part := Render(Str(t), tx);
    assert part == Quoted(t);
    forall s: string, c: nat | TextAt(s, c, part) && c + |part| < |s| && IsCloser(s[c + |part|])
      ensures ItemStart(s[c]) && ValueFrom(s, c, fl) == Success(Parsed(Str(t), c + |part|))
    {
      QuotedReads(t, s, c, c + |part|);
      WsStays(s, c);
      ValueIsSimple(s, c, fl);
    }
  }

  // ----- one step of each collection loop -----

  /** A comma with no whitespace around it separates; the next item starts right after it. */
  lemma {:induction false} CommaAt(s: string, q: nat)
    requires q + 1 < |s| && s[q] == ',' && !IsWhitespace(s[q + 1])
    ensures SeparatorAt(s, q) == (true, q + 1)
  {
    WsStays(s, q);
    WsStays(s, q + 1);
  }

  /** A closer with no whitespace before it ends the loop there, and is eaten. */
  lemma {:induction false} CloserAt(s: string, q: nat, close: char)
    requires q < |s| && s[q] == close && (close == ']' || close == '}')
    ensures SeparatorAt(s, q) == (false, q) && EatAt(s, q, close) == Success(q + 1)
  {
    WsStays(s, q);
  }

  /** One element of the list loop followed by a separating comma: the loop goes on after it, typed by the element. */
  lemma {:induction false} ListItemsNext(s: string, p: nat, lt: Tag, items: seq<Nbt>, v: Nbt, q: nat, fl: Floats, r: Result<Parsed<Nbt>, Syntax>)
    requires lt == END || lt == TagOf(v)
    requires p < |s| && s[p] != ']' && ValueFrom(s, p, fl) == Success(Parsed(v, q))
    requires SeparatorAt(s, q) == (true, q + 1) && ListFrom(s, q + 1, TagOf(v), items + [v], fl) == r
    ensures ListFrom(s, p, lt, items, fl) == r
  {
  }

  /** The last element of the list loop, followed by `]`: the list of all elements, typed by the last. */
  lemma {:induction false} ListItemsLast(s: string, p: nat, lt: Tag, items: seq<Nbt>, v: Nbt, q: nat, fl: Floats)
    requires lt == END || lt == TagOf(v)
    requires p < |s| && s[p] != ']' && ValueFrom(s, p, fl) == Success(Parsed(v, q))
    requires SeparatorAt(s, q) == (false, q) && EatAt(s, q, ']') == Success(q + 1)
    ensures ListFrom(s, p, lt, items, fl) == Success(Parsed(List(TagOf(v), items + [v]), q + 1))
  {
  }

  /** One element of the array loop followed by a separating comma: the loop goes on after it with the element added. */
  lemma {:induction false} ArrayItemsNext(s: string, p: nat, t: Tag, xs: seq<Nbt>, v: Nbt, q: nat, fl: Floats, r: Result<Parsed<Nbt>, Syntax>)
    requires t == BYTE || t == INT || t == LONG
    requires forall i :: 0 <= i < |xs| ==> TagOf(xs[i]) == t
    requires p < |s| && s[p] != ']' && ValueFrom(s, p, fl) == Success(Parsed(v, q)) && TagOf(v) == t
    requires SeparatorAt(s, q) == (true, q + 1) && ArrayFrom(s, q + 1, t, xs + [v], fl) == r
    ensures ArrayFrom(s, p, t, xs, fl) == r
  {
  }

  /** The last element of the array loop, followed by `]`: the array of all elements. */
  lemma {:induction false} ArrayItemsLast(s: string, p: nat, t: Tag, xs: seq<Nbt>, v: Nbt, q: nat, fl: Floats)
    requires t == BYTE || t == INT || t == LONG
    requires forall i :: 0 <= i < |xs| ==> TagOf(xs[i]) == t
    requires p < |s| && s[p] != ']' && ValueFrom(s, p, fl) == Success(Parsed(v, q)) && TagOf(v) == t
    requires SeparatorAt(s, q) == (false, q) && EatAt(s, q, ']') == Success(q + 1)
    ensures ArrayFrom(s, p, t, xs, fl) == Success(Parsed(ArrayOf(t, xs + [v]), q + 1))
  {
  }

  /** A comma at `q`, the next item starting right after it. */
  predicate CommaNext(s: string, q: nat)
  {
    q + 1 < |s| && s[q] == ',' && ItemStart(s[q + 1])
  }

  /** One entry of the compound loop followed by a comma: the loop goes on after the comma with the entry stored. */
  lemma {:induction false} EntriesNext(s: string, p: nat, acc: map<string, Nbt>, k: string, v: Nbt, q: nat, fl: Floats, r: Result<Parsed<Nbt>, Syntax>)
    requires p < |s| && s[p] != '}' && EntryFrom(s, p, fl) == Success((k, Parsed(v, q)))
    requires SeparatorAt(s, q) == (true, q + 1) && EntriesFrom(s, q + 1, acc[k := v], fl) == r
    ensures EntriesFrom(s, p, acc, fl) == r
  {
  }

  /** The last entry of the compound loop, followed by `}`: the compound with the entry stored. */
  lemma {:induction false} EntriesLast(s: string, p: nat, acc: map<string, Nbt>, k: string, v: Nbt, q: nat, fl: Floats)
    requires p < |s| && s[p] != '}' && EntryFrom(s, p, fl) == Success((k, Parsed(v, q)))
    requires SeparatorAt(s, q) == (false, q) && EatAt(s, q, '}') == Success(q + 1)
    ensures EntriesFrom(s, p, acc, fl) == Success(Parsed(Compound(acc[k := v]), q + 1))
  {
  }

  /** A list element that reads back, then a comma: the list loop goes on after the comma, typed by the element. */
  lemma {:induction false} ListThenComma(s: string, c: nat, q: nat, part: string, e: Nbt, lt: Tag, items: seq<Nbt>, fl: Floats)
    requires lt == END || lt == TagOf(e)
    requires PartReads(part, e, fl) && TextAt(s, c, part) && q == c + |part|
    requires q + 1 < |s| && s[q] == ',' && !IsWhitespace(s[q + 1])
    ensures c < |s| && ItemStart(s[c])
    ensures ListFrom(s, c, lt, items, fl) == ListFrom(s, q + 1, TagOf(e), items + [e], fl)
  {
    PartStep(s, c, q, part, e, fl);
    CommaAt(s, q);
    ListItemsNext(s, c, lt, items, e, q, fl, ListFrom(s, q + 1, TagOf(e), items + [e], fl));
  }

  /** A list element that reads back, then `]`: the list ends with it. */
  lemma {:induction false} ListThenClose(s: string, c: nat, q: nat, part: string, e: Nbt, lt: Tag, items: seq<Nbt>, fl: Floats)
    requires lt == END || lt == TagOf(e)
    requires PartReads(part, e, fl) && TextAt(s, c, part) && q == c + |part|
    requires q < |s| && s[q] == ']'
    ensures c < |s| && ItemStart(s[c])
    ensures ListFrom(s, c, lt, items, fl) == Success(Parsed(List(TagOf(e), items + [e]), q + 1))
  {
    PartStep(s, c, q, part, e, fl);
    CloserAt(s, q, ']');
    ListItemsLast(s, c, lt, items, e, q, fl);
  }

  /** An array element that reads back, then a comma: the array loop goes on after the comma. */
  lemma {:induction false} ArrayThenComma(s: string, c: nat, q: nat, part: string, e: Nbt, t: Tag, xs: seq<Nbt>, fl: Floats)
    requires t == BYTE || t == INT || t == LONG
    requires (forall i :: 0 <= i < |xs| ==> TagOf(xs[i]) == t) && TagOf(e) == t
    requires PartReads(part, e, fl) && TextAt(s, c, part) && q == c + |part|
    requires q + 1 < |s| && s[q] == ',' && !IsWhitespace(s[q + 1])
    ensures c < |s| && ItemStart(s[c])
    ensures ArrayFrom(s, c, t, xs, fl) == ArrayFrom(s, q + 1, t, xs + [e], fl)
  {
    PartStep(s, c, q, part, e, fl);
    CommaAt(s, q);
    ArrayItemsNext(s, c, t, xs, e, q, fl, ArrayFrom(s, q + 1, t, xs + [e], fl));
  }

  /** An array element that reads back, then `]`: the array ends with it. */
  lemma {:induction false} ArrayThenClose(s: string, c: nat, q: nat, part: string, e: Nbt, t: Tag, xs: seq<Nbt>, fl: Floats)
    requires t == BYTE || t == INT || t == LONG
    requires (forall i :: 0 <= i < |xs| ==> TagOf(xs[i]) == t) && TagOf(e) == t
    requires PartReads(part, e, fl) && TextAt(s, c, part) && q == c + |part|
    requires q < |s| && s[q] == ']'
    ensures c < |s| && ItemStart(s[c])
    ensures ArrayFrom(s, c, t, xs, fl) == Success(Parsed(ArrayOf(t, xs + [e]), q + 1))
  {
    PartStep(s, c, q, part, e, fl);
    CloserAt(s, q, ']');
    ArrayItemsLast(s, c, t, xs, e, q, fl);
  }

  /** The first `i + 1` elements are the first `i` and element `i`. */
  lemma {:induction false} Snoc<T>(xs: seq<T>, i: nat)
    requires i < |xs|
    ensures xs[..i + 1] == xs[..i] + [xs[i]]
    ensures i + 1 == |xs| ==> xs[..i] + [xs[i]] == xs
  {
    assert xs[..i + 1] == xs[..i] + [xs[i]];
  }

  // ----- the collection loops -----

  /** Parts `i` onwards each read back as the element at the same place. */
  ghost predicate AllRead(parts: seq<string>, es: seq<Nbt>, fl: Floats, i: nat)
    decreases |parts| - i
  {
    |parts| == |es| && i <= |parts|
    && (i < |parts| ==> PartReads(parts[i], es[i], fl) && AllRead(parts, es, fl, i + 1))
  }

  lemma {:induction false} AllReadFrom(parts: seq<string>, es: seq<Nbt>, fl: Floats, i: nat)
    requires |parts| == |es| && i <= |parts|
    requires forall j :: i <= j < |parts| ==> PartReads(parts[j], es[j], fl)
    ensures AllRead(parts, es, fl, i)
    decreases |parts| - i
  {
    if i < |parts| {
      AllReadFrom(parts, es, fl, i + 1);
    }
  }

  /** List element `i` laid out at `c`, then a comma and the next element: the loop goes on after the comma. */
  lemma {:induction false} ListStepLaid(s: string, c: nat, n: nat, parts: seq<string>, es: seq<Nbt>, t: Tag, lt: Tag, i: nat, fl: Floats)
    requires i + 1 < |parts| && AllRead(parts, es, fl, i) && (lt == END || lt == t)
    requires forall j :: 0 <= j < |es| ==> TagOf(es[j]) == t
    requires JoinedAt(s, c, n, parts, i)
    requires c + |parts[i]| + 1 < |s| && ItemStart(s[c + |parts[i]| + 1])
    ensures c < |s| && ItemStart(s[c])
    ensures ListFrom(s, c, lt, es[..i], fl) == ListFrom(s, c + |parts[i]| + 1, t, es[..i + 1], fl)
  {
    Snoc(es, i);
    ListThenComma(s, c, c + |parts[i]|, parts[i], es[i], lt, es[..i], fl);
  }

  /** The last list element laid out at `c`, then `]`: the list of all elements. */
  lemma {:induction false} ListLastLaid(s: string, c: nat, n: nat, parts: seq<string>, es: seq<Nbt>, t: Tag, lt: Tag, i: nat, fl: Floats)
    requires i + 1 == |parts| && AllRead(parts, es, fl, i) && (lt == END || lt == t)
    requires forall j :: 0 <= j < |es| ==> TagOf(es[j]) == t
    requires JoinedAt(s, c, n, parts, i) && n < |s| && s[n] == ']'
    ensures c < |s| && ItemStart(s[c])
    ensures ListFrom(s, c, lt, es[..i], fl) == Success(Parsed(List(t, es), n + 1))
  {
    Snoc(es, i);
    ListThenClose(s, c, c + |parts[i]|, parts[i], es[i], lt, es[..i], fl);
  }

  /**
   * The list loop from element `i` on, over element texts joined by commas
   * and followed by `]`: the list of all elements, typed by their common tag.
   */
  lemma {:induction false} ListLoop(s: string, c: nat, n: nat, parts: seq<string>, es: seq<Nbt>, t: Tag, lt: Tag, i: nat, fl: Floats)
    requires AllRead(parts, es, fl, i) && (lt == END || lt == t)
    requires forall j :: 0 <= j < |es| ==> TagOf(es[j]) == t
    requires JoinedAt(s, c, n, parts, i) && n < |s| && s[n] == ']'
    ensures c < |s| && ItemStart(s[c])
    ensures ListFrom(s, c, lt, es[..i], fl) == Success(Parsed(List(t, es), n + 1))
    decreases |parts| - i
  {
    if i + 1 < |parts| {
      ListLoop(s, c + |parts[i]| + 1, n, parts, es, t, t, i + 1, fl);
      ListStepLaid(s, c, n, parts, es, t, lt, i, fl);
    } else {
      ListLastLaid(s, c, n, parts, es, t, lt, i, fl);
    }
  }

  /** Array element `i` laid out at `c`, then a comma and the next element: the loop goes on after the comma. */
  lemma {:induction false} ArrayStepLaid(s: string, c: nat, n: nat, parts: seq<string>, es: seq<Nbt>, t: Tag, i: nat, fl: Floats)
    requires t == BYTE || t == INT || t == LONG
    requires i + 1 < |parts| && AllRead(parts, es, fl, i) && forall j :: 0 <= j < |es| ==> TagOf(es[j]) == t
    requires JoinedAt(s, c, n, parts, i)
    requires c + |parts[i]| + 1 < |s| && ItemStart(s[c + |parts[i]| + 1])
    ensures c < |s| && ItemStart(s[c])
    ensures ArrayFrom(s, c, t, es[..i], fl) == ArrayFrom(s, c + |parts[i]| + 1, t, es[..i + 1], fl)
  {
    Snoc(es, i);
    ArrayThenComma(s, c, c + |parts[i]|, parts[i], es[i], t, es[..i], fl);
  }

  /** The last array element laid out at `c`, then `]`: the array of all elements. */
  lemma {:induction false} ArrayLastLaid(s: string, c: nat, n: nat, parts: seq<string>, es: seq<Nbt>, t: Tag, i: nat, fl: Floats)
    requires t == BYTE || t == INT || t == LONG
    requires i + 1 == |parts| && AllRead(parts, es, fl, i) && forall j :: 0 <= j < |es| ==> TagOf(es[j]) == t
    requires JoinedAt(s, c, n, parts, i) && n < |s| && s[n] == ']'
    ensures c < |s| && ItemStart(s[c])
    ensures ArrayFrom(s, c, t, es[..i], fl) == Success(Parsed(ArrayOf(t, es), n + 1))
  {
    Snoc(es, i);
    ArrayThenClose(s, c, c + |parts[i]|, parts[i], es[i], t, es[..i], fl);
  }

  /** The array loop from element `i` on, over element texts joined by commas and followed by `]`: the array of all elements. */
  lemma {:induction false} ArrayLoop(s: string, c: nat, n: nat, parts: seq<string>, es: seq<Nbt>, t: Tag, i: nat, fl: Floats)
    requires t == BYTE || t == INT || t == LONG
    requires AllRead(parts, es, fl, i) && forall j :: 0 <= j < |es| ==> TagOf(es[j]) == t
    requires JoinedAt(s, c, n, parts, i) && n < |s| && s[n] == ']'
    ensures c < |s| && ItemStart(s[c])
    ensures ArrayFrom(s, c, t, es[..i], fl) == Success(Parsed(ArrayOf(t, es), n + 1))
    decreases |parts| - i
  {
    if i + 1 < |parts| {
      ArrayLoop(s, c + |parts[i]| + 1, n, parts, es, t, i + 1, fl);
      ArrayStepLaid(s, c, n, parts, es, t, i, fl);
    } else {
      ArrayLastLaid(s, c, n, parts, es, t, i, fl);
    }
  }

  /** The entries the loop has stored after the first `i` keys of `ks`, each with its value in `m`. */
  function Stored(m: map<string, Nbt>, ks: seq<string>, i: nat): map<string, Nbt>
    requires i <= |ks| && forall j :: 0 <= j < |ks| ==> ks[j] in m
  {
    if i == 0 then map[] else Stored(m, ks, i - 1)[ks[i - 1] := m[ks[i - 1]]]
  }

  /** The stored keys are the first `i` keys, each with its value in `m`. */
  lemma {:induction false} StoredNext(m: map<string, Nbt>, ks: seq<string>, i: nat)
    requires i < |ks| && forall j :: 0 <= j < |ks| ==> ks[j] in m
    ensures ks[i] in m && Stored(m, ks, i + 1) == Stored(m, ks, i)[ks[i] := m[ks[i]]]
  {
  }

  lemma {:induction false} StoredHolds(m: map<string, Nbt>, ks: seq<string>, i: nat)
    requires i <= |ks| && forall j :: 0 <= j < |ks| ==> ks[j] in m
    ensures forall k :: k in Stored(m, ks, i) <==> k in ks[..i]
    ensures forall k :: k in Stored(m, ks, i) ==> Stored(m, ks, i)[k] == m[k]
  {
    if i > 0 {
      StoredHolds(m, ks, i - 1);
      assert ks[..i] == ks[..i - 1] + [ks[i - 1]];
    }
  }

  /** Once every key of `m` has been passed, all of `m` is stored. */
  lemma {:induction false} StoredAll(m: map<string, Nbt>, ks: seq<string>)
    requires (forall j :: 0 <= j < |ks| ==> ks[j] in m) && forall k :: k in m ==> k in ks
    ensures Stored(m, ks, |ks|) == m
  {
    StoredHolds(m, ks, |ks|);
    assert ks[..|ks|] == ks;
  }

  /** A textual key standing before `:` is read back by `parseKey`, the cursor on the `:`. */
  lemma {:induction false} KeyRead(k: string, s: string, c: nat)
    requires TextualKey(k) && TextAt(s, c, KeyText(k)) && c + |KeyText(k)| < |s| && s[c + |KeyText(k)|] == ':'
    ensures ItemStart(s[c]) && KeyAt(s, c) == Success(Parsed(k, c + |KeyText(k)|))
  {
    var e := c + |KeyText(k)|;
    if IsBareKey(k) {
      assert KeyText(k) == k;
      forall j | c <= j < e ensures IsUnquotedChar(s[j]) {
        TextAtChar(s, c, k, j - c);
      }
      TextAtChar(s, c, k, 0);
      WsStays(s, c);
      UnquotedEndAt(s, c, e);
      assert s[c..e] == k by {
        forall j | 0 <= j < |k| ensures s[c..e][j] == k[j] {
          TextAtChar(s, c, k, j);
        }
      }
    } else {
      assert KeyText(k) == Quoted(k);
      QuotedReads(k, s, c, e);
      WsStays(s, c);
    }
  }

  /** Wherever the key text stands with `:` right after it, `parseKey` reads it as `k`, up to the `:`. */
  ghost predicate KeyReads(kt: string, k: string)
  {
    forall s: string, c: nat {:trigger TextAt(s, c, kt)} ::
      TextAt(s, c, kt) && c + |kt| < |s| && s[c + |kt|] == ':' ==>
        ItemStart(s[c]) && KeyAt(s, c) == Success(Parsed(k, c + |kt|))
  }

  /** A textual key, as `handleEscape` writes it, reads back wherever it stands before `:`. */
  lemma {:induction false} KeyTextReads(k: string)
    requires TextualKey(k)
    ensures KeyReads(KeyText(k), k)
  {
    forall s: string, c: nat | TextAt(s, c, KeyText(k)) && c + |KeyText(k)| < |s| && s[c + |KeyText(k)|] == ':'
      ensures ItemStart(s[c]) && KeyAt(s, c) == Success(Parsed(k, c + |KeyText(k)|))
    {
      KeyRead(k, s, c);
    }
  }

  /** An entry laid out at `c` up to `q`: its key text `kt`, `:`, and its value text `r`, both reading back. */
  ghost predicate EntryLaid(s: string, c: nat, q: nat, kt: string, k: string, r: string, e: Nbt, fl: Floats)
  {
    KeyReads(kt, k) && PartReads(r, e, fl) && TextAt(s, c, kt + ":" + r) && q == c + |kt| + 1 + |r|
  }

  /** An entry laid out before a closer: key, `:` and value are read in turn. */
  lemma {:induction false} EntryStep(s: string, c: nat, q: nat, kt: string, k: string, r: string, e: Nbt, fl: Floats)
    requires EntryLaid(s, c, q, kt, k, r, e, fl) && q < |s| && IsCloser(s[q])
    ensures c < |s| && ItemStart(s[c]) && EntryFrom(s, c, fl) == Success((k, Parsed(e, q)))
  {
    var j := c + |kt| + 1;
    TextAtThree(s, c, kt, ":", r);
    TextAtChar(s, c + |kt|, ":", 0);
    WsStays(s, j - 1);
    PartStep(s, j, q, r, e, fl);
    WsStays(s, j);
    EntryRead(s, c, j, q, k, e, fl);
  }

  /** A key read up to `:`, then a value read straight after it: the entry is read. */
  lemma {:induction false} EntryRead(s: string, c: nat, j: nat, q: nat, k: string, e: Nbt, fl: Floats)
    requires c < j <= |s| && KeyAt(s, c) == Success(Parsed(k, j - 1)) && Ws(s, j - 1) == j - 1 && s[j - 1] == ':'
    requires Ws(s, j) == j && ValueFrom(s, j, fl) == Success(Parsed(e, q))
    ensures EntryFrom(s, c, fl) == Success((k, Parsed(e, q)))
  {
    assert EatAt(s, j - 1, ':') == Success(j);
    assert ValueAt(s, Ws(s, j), fl) == Success(Parsed(e, q));
  }

  /** An entry that reads back, then a comma: the entry loop reads on after the comma with the entry stored. */
  lemma {:induction false} EntryThenComma(s: string, c: nat, q: nat, kt: string, k: string, r: string, e: Nbt, acc: map<string, Nbt>, fl: Floats, res: Result<Parsed<Nbt>, Syntax>)
    requires EntryLaid(s, c, q, kt, k, r, e, fl) && CommaNext(s, q)
    requires EntriesFrom(s, q + 1, acc[k := e], fl) == res
    ensures c < |s| && ItemStart(s[c])
    ensures EntriesFrom(s, c, acc, fl) == res
  {
    EntryStep(s, c, q, kt, k, r, e, fl);
    CommaAt(s, q);
    EntriesNext(s, c, acc, k, e, q, fl, res);
  }

  /** An entry that reads back, then `}`: the compound ends with the entry stored. */
  lemma {:induction false} EntryThenClose(s: string, c: nat, q: nat, kt: string, k: string, r: string, e: Nbt, acc: map<string, Nbt>, fl: Floats)
    requires EntryLaid(s, c, q, kt, k, r, e, fl) && q < |s| && s[q] == '}'
    ensures c < |s| && ItemStart(s[c])
    ensures EntriesFrom(s, c, acc, fl) == Success(Parsed(Compound(acc[k := e]), q + 1))
  {
    EntryStep(s, c, q, kt, k, r, e, fl);
    CloserAt(s, q, '}');
    EntriesLast(s, c, acc, k, e, q, fl);
  }

  /**
   * Entries `i` onwards of `m`, in the order `ks`, each written as key text
   * `kparts[j]`, `:` and value text `vparts[j]`, that read back.
   */
  ghost predicate EntriesLaid(m: map<string, Nbt>, ks: seq<string>, parts: seq<string>, kparts: seq<string>, vparts: seq<string>, fl: Floats, i: nat)
    decreases |ks| - i
  {
    |parts| == |ks| == |kparts| == |vparts| && i <= |ks| && (forall j :: 0 <= j < |ks| ==> ks[j] in m)
    && (i < |ks| ==>
          KeyReads(kparts[i], ks[i]) && PartReads(vparts[i], m[ks[i]], fl) && parts[i] == kparts[i] + ":" + vparts[i]
          && EntriesLaid(m, ks, parts, kparts, vparts, fl, i + 1))
  }

  lemma {:induction false} EntryLaidAt(s: string, c: nat, m: map<string, Nbt>, ks: seq<string>, parts: seq<string>, kparts: seq<string>, vparts: seq<string>, fl: Floats, i: nat)
    requires EntriesLaid(m, ks, parts, kparts, vparts, fl, i) && i < |ks| && TextAt(s, c, parts[i])
    ensures ks[i] in m && EntryLaid(s, c, c + |parts[i]|, kparts[i], ks[i], vparts[i], m[ks[i]], fl)
  {
  }

  /** Entry `i` of the laid-out entries, then a comma. */
  lemma {:induction false} LaidThenComma(s: string, c: nat, q: nat, m: map<string, Nbt>, ks: seq<string>, parts: seq<string>, kparts: seq<string>, vparts: seq<string>, fl: Floats, i: nat, acc: map<string, Nbt>, res: Result<Parsed<Nbt>, Syntax>)
    requires EntriesLaid(m, ks, parts, kparts, vparts, fl, i) && i < |ks| && TextAt(s, c, parts[i]) && q == c + |parts[i]|
    requires CommaNext(s, q) && i + 1 < |ks| && acc == Stored(m, ks, i) && EntriesFrom(s, q + 1, Stored(m, ks, i + 1), fl) == res
    ensures c < |s| && ItemStart(s[c])
    ensures EntriesFrom(s, c, acc, fl) == res
  {
    StoredNext(m, ks, i);
    EntryLaidAt(s, c, m, ks, parts, kparts, vparts, fl, i);
    EntryThenComma(s, c, q, kparts[i], ks[i], vparts[i], m[ks[i]], acc, fl, res);
  }

  /** Entry `i` of the laid-out entries, then `}`. */
  lemma {:induction false} LaidThenClose(s: string, c: nat, q: nat, m: map<string, Nbt>, ks: seq<string>, parts: seq<string>, kparts: seq<string>, vparts: seq<string>, fl: Floats, i: nat, acc: map<string, Nbt>)
    requires EntriesLaid(m, ks, parts, kparts, vparts, fl, i) && i < |ks| && TextAt(s, c, parts[i]) && q == c + |parts[i]|
    requires q < |s| && s[q] == '}'
    ensures c < |s| && ItemStart(s[c]) && ks[i] in m
    ensures EntriesFrom(s, c, acc, fl) == Success(Parsed(Compound(acc[ks[i] := m[ks[i]]]), q + 1))
  {
    EntryLaidAt(s, c, m, ks, parts, kparts, vparts, fl, i);
    EntryThenClose(s, c, q, kparts[i], ks[i], vparts[i], m[ks[i]], acc, fl);
  }

  /** Entry `i` of the laid-out entries, standing at `c`, starts an item: its key's first character. */
  lemma {:induction false} LaidStart(s: string, c: nat, n: nat, m: map<string, Nbt>, ks: seq<string>, parts: seq<string>, kparts: seq<string>, vparts: seq<string>, fl: Floats, i: nat)
    requires EntriesLaid(m, ks, parts, kparts, vparts, fl, i) && JoinedAt(s, c, n, parts, i) && i < |ks|
    ensures c < |s| && ItemStart(s[c])
  {
    TextAtThree(s, c, kparts[i], ":", vparts[i]);
    TextAtChar(s, c + |kparts[i]|, ":", 0);
  }

  /** Entry `i` and a comma: the loop reads on at entry `i + 1` with entry `i` stored. */
  lemma {:induction false} LaidStep(s: string, c: nat, n: nat, m: map<string, Nbt>, ks: seq<string>, parts: seq<string>, kparts: seq<string>, vparts: seq<string>, fl: Floats, i: nat)
    requires EntriesLaid(m, ks, parts, kparts, vparts, fl, i) && JoinedAt(s, c, n, parts, i) && i + 1 < |ks|
    ensures EntriesFrom(s, c, Stored(m, ks, i), fl) == EntriesFrom(s, c + |parts[i]| + 1, Stored(m, ks, i + 1), fl)
  {
    var q := c + |parts[i]|;
    LaidStart(s, q + 1, n, m, ks, parts, kparts, vparts, fl, i + 1);
    LaidThenComma(s, c, q, m, ks, parts, kparts, vparts, fl, i, Stored(m, ks, i), EntriesFrom(s, q + 1, Stored(m, ks, i + 1), fl));
  }

  /** The last entry and `}`: the compound of all entries. */
  lemma {:induction false} LaidLast(s: string, c: nat, n: nat, m: map<string, Nbt>, ks: seq<string>, parts: seq<string>, kparts: seq<string>, vparts: seq<string>, fl: Floats, i: nat)
    requires EntriesLaid(m, ks, parts, kparts, vparts, fl, i) && JoinedAt(s, c, n, parts, i) && i + 1 == |ks|
    requires n < |s| && s[n] == '}'
    ensures EntriesFrom(s, c, Stored(m, ks, i), fl) == Success(Parsed(Compound(Stored(m, ks, |ks|)), n + 1))
  {
    StoredNext(m, ks, i);
    LaidThenClose(s, c, n, m, ks, parts, kparts, vparts, fl, i, Stored(m, ks, i));
  }

  /** The layout of every entry, from the keys' and values' own reading facts. */
  lemma {:induction false} LaidOf(m: map<string, Nbt>, ks: seq<string>, parts: seq<string>, kparts: seq<string>, vparts: seq<string>, fl: Floats, i: nat)
    requires |parts| == |ks| == |kparts| == |vparts| && i <= |ks|
    requires forall j :: 0 <= j < |ks| ==>
      ks[j] in m && KeyReads(kparts[j], ks[j]) && PartReads(vparts[j], m[ks[j]], fl) && parts[j] == kparts[j] + ":" + vparts[j]
    ensures EntriesLaid(m, ks, parts, kparts, vparts, fl, i)
    decreases |ks| - i
  {
    if i < |ks| {
      LaidOf(m, ks, parts, kparts, vparts, fl, i + 1);
    }
  }

  /**
   * The compound loop from entry `i` on, over the laid-out entries joined by
   * commas from `c` to `n`, followed by `}`: every entry is stored.
   */
  lemma {:induction false} EntriesLoop(s: string, c: nat, n: nat, m: map<string, Nbt>, ks: seq<string>, parts: seq<string>, kparts: seq<string>, vparts: seq<string>, fl: Floats, i: nat)
    requires EntriesLaid(m, ks, parts, kparts, vparts, fl, i) && JoinedAt(s, c, n, parts, i)
    requires n < |s| && s[n] == '}'
    ensures c <= |s| && EntriesFrom(s, c, Stored(m, ks, i), fl) == Success(Parsed(Compound(Stored(m, ks, |ks|)), n + 1))
    decreases |ks| - i
  {
    if i + 1 < |ks| {
      LaidStep(s, c, n, m, ks, parts, kparts, vparts, fl, i);
      EntriesLoop(s, c + |parts[i]| + 1, n, m, ks, parts, kparts, vparts, fl, i + 1);
    } else {
      LaidLast(s, c, n, m, ks, parts, kparts, vparts, fl, i);
    }
  }

  // ----- arrays -----

  predicate IsArray(v: Nbt)
  {
    v.ByteArray? || v.IntArray? || v.LongArray?
  }

  /** The elements of an array, each as the value the parser reads. */
  function ElementsOf(v: Nbt): (es: seq<Nbt>)
    requires IsArray(v)
  {
    match v
    case ByteArray(xs) => seq(|xs|, j requires 0 <= j < |xs| => Byte(xs[j]))
    case IntArray(xs) => seq(|xs|, j requires 0 <= j < |xs| => Int(xs[j]))
    case LongArray(xs) => seq(|xs|, j requires 0 <= j < |xs| => Long(xs[j]))
  }

  /** The text of each element of an array. */
  function ArrayTexts(v: Nbt): seq<string>
    requires IsArray(v)
  {
    match v
    case ByteArray(xs) => ByteTexts(xs)
    case IntArray(xs) => IntTexts(xs)
    case LongArray(xs) => LongTexts(xs)
  }

  /** The tag of an array's elements. */
  function ElementTag(v: Nbt): Tag
    requires IsArray(v)
  {
    if v.ByteArray? then BYTE else if v.IntArray? then INT else LONG
  }

  /** The letter after an array's `[`. */
  function TypeLetter(v: Nbt): char
    requires IsArray(v)
  {
    if v.ByteArray? then 'B' else if v.IntArray? then 'I' else 'L'
  }

  /** Every element text of an array reads back as that element. */
  lemma {:induction false} ArrayPartsRead(v: Nbt, fl: Floats)
    requires IsArray(v)
    ensures |ArrayTexts(v)| == |ElementsOf(v)|
    ensures forall j :: 0 <= j < |ElementsOf(v)| ==> PartReads(ArrayTexts(v)[j], ElementsOf(v)[j], fl)
  {
    var es, parts := ElementsOf(v), ArrayTexts(v);
    var suf := if v.ByteArray? then "B" else if v.IntArray? then "" else "L";
    forall j | 0 <= j < |es| ensures PartReads(parts[j], es[j], fl) {
      ArrayElementNumeral(es[j], suf, fl);
      assert parts[j] == IntText(IntegerOf(es[j])) + suf;
      NumeralPartReads(IntText(IntegerOf(es[j])), suf, es[j], fl);
    }
  }

  /** The elements are all of the array's element tag, and `createArray` of them gives the array back. */
  lemma {:induction false} ArrayOfElements(v: Nbt)
    requires IsArray(v)
    ensures forall j :: 0 <= j < |ElementsOf(v)| ==> TagOf(ElementsOf(v)[j]) == ElementTag(v)
    ensures ArrayOf(ElementTag(v), ElementsOf(v)) == v
  {
    var es := ElementsOf(v);
    match v
    case ByteArray(xs) => assert ByteValues(es) == xs;
    case IntArray(xs) => assert IntValues(es) == xs;
    case LongArray(xs) => assert LongValues(es) == xs;
  }

  /** What the visitor writes for an array. */
  lemma {:induction false} ArrayRendered(v: Nbt, tx: Texts)
    requires IsArray(v)
    ensures Render(v, tx) == ['[', TypeLetter(v), ';'] + Joined(ArrayTexts(v)) + "]"
  {
    match v
    case ByteArray(xs) => assert Render(v, tx) == "[B;" + Joined(ByteTexts(xs)) + "]";
    case IntArray(xs) => assert Render(v, tx) == "[I;" + Joined(IntTexts(xs)) + "]";
    case LongArray(xs) => assert Render(v, tx) == "[L;" + Joined(LongTexts(xs)) + "]";
  }

  /** Three texts standing one after another. */
  lemma {:induction false} TextAtThree(s: string, c: nat, a: string, b: string, d: string)
    requires TextAt(s, c, a + b + d)
    ensures TextAt(s, c, a) && TextAt(s, c + |a|, b) && TextAt(s, c + |a| + |b|, d)
  {
    TextAtConcat(s, c, a + b, d);
    TextAtConcat(s, c, a, b);
  }

  /** An array's text standing at `c`: `[`, the letter and `;`, then the joined parts, then `]`. */
  lemma {:induction false} ArrayLayout(s: string, c: nat, n: nat, letter: char, parts: seq<string>)
    requires TextAt(s, c, ['[', letter, ';'] + Joined(parts) + "]") && n == c + 4 + |Joined(parts)|
    ensures c + 3 < n <= |s| && s[c] == '[' && s[c + 1] == letter && s[c + 2] == ';' && s[n - 1] == ']'
    ensures TextAt(s, c + 3, Joined(parts))
  {
    var head := ['[', letter, ';'];
    TextAtThree(s, c, head, Joined(parts), "]");
    TextAtChar(s, c, head, 0);
    TextAtChar(s, c, head, 1);
    TextAtChar(s, c, head, 2);
    TextAtChar(s, n - 1, "]", 0);
  }

  /** `parseValue` at an array's `[`: the type letter and `;` are eaten and the element loop starts right after. */
  lemma {:induction false} ArrayOpen(s: string, c: nat, t: Tag, fl: Floats)
    requires c + 3 < |s| && s[c] == '[' && s[c + 2] == ';' && ArrayTag(s[c + 1]) == t && t != END
    requires !IsWhitespace(s[c + 3])
    ensures Ws(s, c) == c && ValueFrom(s, c, fl) == ArrayFrom(s, c + 3, t, [], fl)
  {
    WsStays(s, c);
    WsStays(s, c + 2);
    WsStays(s, c + 3);
    assert ValueAt(s, c, fl) == ArrayAt(s, c, fl);
    assert EatAt(s, c, '[') == Success(c + 1);
    assert EatAt(s, c + 2, ';') == Success(c + 3);
  }

  /** The element loop over an array's joined element texts, standing before `]`, builds `createArray` of the elements. */
  lemma {:induction false} ElementsRead(s: string, p: nat, n: nat, parts: seq<string>, es: seq<Nbt>, t: Tag, fl: Floats)
    requires t == BYTE || t == INT || t == LONG
    requires |parts| == |es| && forall j :: 0 <= j < |es| ==> TagOf(es[j]) == t
    requires forall j :: 0 <= j < |es| ==> PartReads(parts[j], es[j], fl)
    requires TextAt(s, p, Joined(parts)) && n == p + |Joined(parts)| && n < |s| && s[n] == ']'
    ensures p < |s| && !IsWhitespace(s[p]) && ArrayFrom(s, p, t, [], fl) == Success(Parsed(ArrayOf(t, es), n + 1))
  {
    if parts == [] {
      assert es == [];
      CloserAt(s, p, ']');
    } else {
      JoinedFront(parts);
      JoinedFromLaid(s, p, parts, 0);
      AllReadFrom(parts, es, fl, 0);
      ArrayLoop(s, p, n, parts, es, t, 0, fl);
      assert es[..0] == [];
    }
  }

  /** An array's text reads back as the array, wherever it stands. */
  lemma {:induction false} ArrayValueAt(v: Nbt, tx: Texts, t: string, s: string, c: nat, n: nat, fl: Floats)
    requires IsArray(v) && t == Render(v, tx) && TextAt(s, c, t) && n == c + |t|
    ensures Ws(s, c) == c && ValueFrom(s, c, fl) == Success(Parsed(v, n))
  {
    ArrayRendered(v, tx);
    ArrayOfElements(v);
    ArrayPartsRead(v, fl);
    assert ArrayTag(TypeLetter(v)) == ElementTag(v);
    ArrayValueLaid(s, c, n, TypeLetter(v), ArrayTexts(v), ElementsOf(v), ElementTag(v), fl);
  }

  /** An array laid out as `[`, its letter, `;`, the joined element texts and `]` is read as the array of the elements. */
  lemma {:induction false} ArrayValueLaid(s: string, c: nat, n: nat, letter: char, parts: seq<string>, es: seq<Nbt>, t: Tag, fl: Floats)
    requires t == BYTE || t == INT || t == LONG
    requires ArrayTag(letter) == t
    requires |parts| == |es| && forall j :: 0 <= j < |es| ==> TagOf(es[j]) == t
    requires forall j :: 0 <= j < |es| ==> PartReads(parts[j], es[j], fl)
    requires TextAt(s, c, ['[', letter, ';'] + Joined(parts) + "]") && n == c + 4 + |Joined(parts)|
    ensures Ws(s, c) == c && ValueFrom(s, c, fl) == Success(Parsed(ArrayOf(t, es), n))
  {
    ArrayLayout(s, c, n, letter, parts);
    ElementsRead(s, c + 3, n - 1, parts, es, t, fl);
    ArrayOpen(s, c, t, fl);
  }

  /** An array reads back wherever it stands before a closer. */
  lemma {:induction false} ArrayPartReads(v: Nbt, tx: Texts, t: string, fl: Floats)
    requires IsArray(v) && t == Render(v, tx)
    ensures PartReads(t, v, fl)
  {
    forall s: string, c: nat | TextAt(s, c, t) && c + |t| < |s| && IsCloser(s[c + |t|])
      ensures ItemStart(s[c]) && ValueFrom(s, c, fl) == Success(Parsed(v, c + |t|))
    {
      ArrayValueAt(v, tx, t, s, c, c + |t|, fl);
      TextAtChar(s, c, t, 0);
    }
  }

  // ----- the first characters of a text -----

  /** The first character of a textual value's text: a bracket, a brace, a quote, a minus sign or a digit. */
  lemma {:induction false} FirstChar(v: Nbt, tx: Texts)
    requires Textual(v)
    ensures Render(v, tx) != [] && IsStartChar(Render(v, tx)[0])
  {
    if IsInteger(v) {
      var x := IntegerOf(v);
      IntegerText(v, tx);
      IntTextChars(x);
      if x < 0 {
        assert IntText(x)[0] == '-';
      }
      assert Render(v, tx)[0] == IntText(x)[0];
    } else if v.Str? {
      PlainQuoted(v.text);
    }
  }

  /** Joined parts begin with the first character of the first part. */
  lemma {:induction false} JoinedHead(parts: seq<string>)
    requires parts != [] && parts[0] != []
    ensures Joined(parts) != [] && Joined(parts)[0] == parts[0][0]
  {
    JoinedFront(parts);
  }

  /** A key as `handleEscape` writes it begins with a bare character or a quote. */
  lemma {:induction false} KeyFirst(k: string)
    requires TextualKey(k)
    ensures KeyText(k) != [] && (IsBareChar(KeyText(k)[0]) || IsQuote(KeyText(k)[0]))
  {
    if !IsBareKey(k) {
      PlainQuoted(k);
    }
  }

  /** Bracketed joined parts: the character after the opening bracket is the first part's first character. */
  lemma {:induction false} BracketedSecond(o: string, parts: seq<string>, cl: string)
    requires |o| == 1 && parts != [] && parts[0] != []
    ensures |o + Joined(parts) + cl| >= 2 && (o + Joined(parts) + cl)[1] == parts[0][0]
  {
    JoinedHead(parts);
    assert (o + Joined(parts) + cl)[1] == Joined(parts)[0];
  }

  /** The second character of an integer's text is a digit or its suffix letter. */
  lemma {:induction false} IntegerSecond(v: Nbt, tx: Texts)
    requires IsInteger(v)
    ensures |Render(v, tx)| >= 2 ==> Render(v, tx)[1] != ';'
  {
    var r := Render(v, tx);
    IntegerText(v, tx);
    var t := IntText(IntegerOf(v));
    IntTextChars(IntegerOf(v));
    if |r| >= 2 {
      if |t| >= 2 {
        assert r[1] == t[1];
      } else {
        assert r[1] == SuffixOf(v)[0];
      }
    }
  }

  /** The second character of a nonempty list's text is its first element's first character. */
  lemma {:induction false} ListSecond(v: Nbt, tx: Texts)
    requires v.List? && Textual(v) && v.items != []
    ensures |Render(v, tx)| >= 2 && Render(v.items[0], tx) != [] && Render(v, tx)[1] == Render(v.items[0], tx)[0]
  {
    var parts := ListParts(v, tx);
    assert parts[0] == Render(v.items[0], tx);
    FirstChar(v.items[0], tx);
    BracketedSecond("[", parts, "]");
  }

  /** The second character of a nonempty compound's text is its first key's first character. */
  lemma {:induction false} CompoundSecond(v: Nbt, tx: Texts)
    requires v.Compound? && Textual(v) && v.entries != map[]
    ensures |Render(v, tx)| >= 2 && Render(v, tx)[1] != ';'
  {
    var parts := CompoundParts(v, tx);
    assert |parts| != 0 by {
      var k :| k in v.entries;
    }
    var kt := FirstKeyText(v, tx, parts);
    BracketedFirstPart(Render(v, tx), parts, kt);
  }

  /** The first part of a nonempty compound begins with its first key's text, whose first character is not `;`. */
  lemma {:induction false} FirstKeyText(v: Nbt, tx: Texts, parts: seq<string>) returns (kt: string)
    requires v.Compound? && Textual(v) && parts == CompoundParts(v, tx) && parts != []
    ensures kt != [] && kt[0] != ';' && parts[0] != [] && parts[0][0] == kt[0]
  {
    var ks := SortedKeys(v.entries.Keys);
    CompoundPartAt(v, tx, 0);
    KeyFirst(ks[0]);
    kt := KeyText(ks[0]);
    assert parts[0][0] == kt[0];
  }

  /** A text laid out as `{` and joined parts, the first starting with a character other than `;`. */
  lemma {:induction false} BracketedFirstPart(t: string, parts: seq<string>, kt: string)
    requires t == "{" + Joined(parts) + "}" && parts != [] && kt != [] && kt[0] != ';' && parts[0] != [] && parts[0][0] == kt[0]
    ensures |t| >= 2 && t[1] != ';'
  {
    BracketedSecond("{", parts, "}");
  }

  /**
   * The second character of a textual value's text is never `;`, unless the
   * value is a string that starts with `;`: a list of such values is not
   * taken for a typed array.
   */
  lemma {:induction false} SecondChar(v: Nbt, tx: Texts)
    requires Textual(v) && !(v.Str? && v.text != [] && v.text[0] == ';')
    ensures |Render(v, tx)| >= 2 ==> Render(v, tx)[1] != ';'
  {
    if IsInteger(v) {
      IntegerSecond(v, tx);
    } else if v.Str? {
      PlainQuoted(v.text);
      if v.text != [] && |Render(v, tx)| >= 2 {
        assert Render(v, tx)[1] == v.text[0];
      }
    } else if IsArray(v) {
      ArrayRendered(v, tx);
    } else if v.List? {
      if v.items != [] {
        ListSecond(v, tx);
        FirstChar(v.items[0], tx);
      }
    } else if v.Compound? {
      if v.entries != map[] {
        CompoundSecond(v, tx);
      }
    }
  }

  // ----- lists -----

  /** `parseValue` at a `[` without `;` two places on: the list loop starts after the `[`, typed END. */
  lemma {:induction false} ListOpen(s: string, c: nat, fl: Floats)
    requires c + 1 < |s| && s[c] == '[' && !IsWhitespace(s[c + 1]) && !(c + 3 <= |s| && s[c + 2] == ';')
    ensures ValueFrom(s, c, fl) == ListFrom(s, c + 1, END, [], fl)
  {
    WsStays(s, c);
    WsStays(s, c + 1);
    assert ValueAt(s, c, fl) == ListAt(s, c, fl);
    assert EatAt(s, c, '[') == Success(c + 1);
  }

  /**
   * The list loop over element texts joined by commas, each reading back as
   * an element of tag `t`, standing before `]`: the list of those elements,
   * typed END when there are none.
   */
  lemma {:induction false} ListElementsRead(s: string, p: nat, n: nat, parts: seq<string>, xs: seq<Nbt>, t: Tag, fl: Floats)
    requires |parts| == |xs| && (xs == [] ==> t == END)
    requires forall j :: 0 <= j < |xs| ==> PartReads(parts[j], xs[j], fl) && TagOf(xs[j]) == t
    requires parts != [] ==> parts[0] != [] && (|parts[0]| >= 2 ==> parts[0][1] != ';')
    requires TextAt(s, p, Joined(parts)) && n == p + |Joined(parts)| && n < |s| && s[n] == ']'
    ensures p < |s| && !IsWhitespace(s[p]) && (parts != [] ==> p + 1 < |s| && s[p + 1] != ';')
    ensures ListFrom(s, p, END, [], fl) == Success(Parsed(List(t, xs), n + 1))
  {
    if parts == [] {
      CloserAt(s, p, ']');
    } else {
      JoinedFront(parts);
      JoinedFromLaid(s, p, parts, 0);
      AllReadFrom(parts, xs, fl, 0);
      ListLoop(s, p, n, parts, xs, t, END, 0, fl);
      if |parts[0]| >= 2 {
        TextAtChar(s, p, parts[0], 1);
      }
      assert xs[..0] == [];
    }
  }

  /**
   * Bracketed element texts, each reading back as an element of tag `t`, the
   * first not starting with a `;` as its second character: `parseValue` reads
   * the list of those elements, typed END when there are none.
   */
  lemma {:induction false} ListTextReads(s: string, c: nat, n: nat, parts: seq<string>, xs: seq<Nbt>, t: Tag, fl: Floats)
    requires |parts| == |xs| && (xs == [] ==> t == END)
    requires forall j :: 0 <= j < |xs| ==> PartReads(parts[j], xs[j], fl) && TagOf(xs[j]) == t
    requires parts != [] ==> parts[0] != [] && (|parts[0]| >= 2 ==> parts[0][1] != ';')
    requires TextAt(s, c, "[" + Joined(parts) + "]") && n == c + |Joined(parts)| + 2 && n < |s| && IsCloser(s[n])
    ensures ValueFrom(s, c, fl) == Success(Parsed(List(t, xs), n))
  {
    TextAtThree(s, c, "[", Joined(parts), "]");
    TextAtChar(s, c, "[", 0);
    TextAtChar(s, n - 1, "]", 0);
    ListElementsRead(s, c + 1, n - 1, parts, xs, t, fl);
    ListOpen(s, c, fl);
  }

  /** A textual list whose elements read back reads back as itself wherever it stands before a closer. */
  lemma {:induction false} ListReadsAt(v: Nbt, tx: Texts, t: string, s: string, c: nat, n: nat, fl: Floats)
    requires v.List? && Textual(v) && t == Render(v, tx)
    requires forall i :: 0 <= i < |v.items| ==> PartReads(Render(v.items[i], tx), v.items[i], fl)
    requires TextAt(s, c, t) && n == c + |t| && n < |s| && IsCloser(s[n])
    ensures ValueFrom(s, c, fl) == Success(Parsed(v, n))
  {
    var parts, xs := ListParts(v, tx), v.items;
    assert t == "[" + Joined(parts) + "]";
    assert forall j :: 0 <= j < |xs| ==> parts[j] == Render(xs[j], tx);
    if xs != [] {
      FirstChar(xs[0], tx);
      SecondChar(xs[0], tx);
    }
    ListTextReads(s, c, n, parts, xs, v.elementType, fl);
  }

  /** A textual list whose elements read back reads back wherever it stands before a closer. */
  lemma {:induction false} ListPartReads(v: Nbt, tx: Texts, t: string, fl: Floats)
    requires v.List? && Textual(v) && t == Render(v, tx)
    requires forall i :: 0 <= i < |v.items| ==> PartReads(Render(v.items[i], tx), v.items[i], fl)
    ensures PartReads(t, v, fl)
  {
    forall s: string, c: nat | TextAt(s, c, t) && c + |t| < |s| && IsCloser(s[c + |t|])
      ensures ItemStart(s[c]) && ValueFrom(s, c, fl) == Success(Parsed(v, c + |t|))
    {
      ListReadsAt(v, tx, t, s, c, c + |t|, fl);
      TextAtChar(s, c, t, 0);
    }
  }

  // ----- compounds -----

  /** `parseCompound` at a `{`: the entry loop starts after it with no entries. */
  lemma {:induction false} CompoundOpen(s: string, c: nat, fl: Floats)
    requires c + 1 < |s| && s[c] == '{' && !IsWhitespace(s[c + 1])
    ensures CompoundFrom(s, c, fl) == EntriesFrom(s, c + 1, map[], fl)
  {
    WsStays(s, c);
    WsStays(s, c + 1);
    assert EatAt(s, c, '{') == Success(c + 1);
  }

  /** `parseValue` at a `{` hands over to `parseCompound`. */
  lemma {:induction false} CompoundDispatch(s: string, c: nat, fl: Floats)
    requires c < |s| && s[c] == '{'
    ensures ValueFrom(s, c, fl) == CompoundFrom(s, c, fl)
  {
    WsStays(s, c);
    assert ValueAt(s, c, fl) == CompoundAt(s, c, fl);
  }

  /**
   * The entry loop over entry texts joined by commas, standing before `}`:
   * the compound `m`, whose every key is among `ks`.
   */
  lemma {:induction false} EntriesRead(s: string, p: nat, n: nat, m: map<string, Nbt>, ks: seq<string>, parts: seq<string>, kparts: seq<string>, vparts: seq<string>, fl: Floats)
    requires |parts| == |ks| == |kparts| == |vparts| && (forall k :: k in m ==> k in ks)
    requires forall j :: 0 <= j < |ks| ==>
      ks[j] in m && KeyReads(kparts[j], ks[j]) && PartReads(vparts[j], m[ks[j]], fl) && parts[j] == kparts[j] + ":" + vparts[j]
    requires TextAt(s, p, Joined(parts)) && n == p + |Joined(parts)| && n < |s| && s[n] == '}'
    ensures p < |s| && !IsWhitespace(s[p]) && EntriesFrom(s, p, map[], fl) == Success(Parsed(Compound(m), n + 1))
  {
    StoredAll(m, ks);
    if ks == [] {
      assert m == map[];
      CloserAt(s, p, '}');
    } else {
      JoinedFront(parts);
      JoinedFromLaid(s, p, parts, 0);
      LaidOf(m, ks, parts, kparts, vparts, fl, 0);
      LaidStart(s, p, n, m, ks, parts, kparts, vparts, fl, 0);
      EntriesLoop(s, p, n, m, ks, parts, kparts, vparts, fl, 0);
    }
  }

  /**
   * Braced entry texts `key:value` over the keys `ks`, which hold every key of
   * `m`, each key and value text reading back as the key and its value:
   * `parseCompound` reads the compound `m`.
   */
  lemma {:induction false} CompoundTextReads(s: string, c: nat, n: nat, m: map<string, Nbt>, ks: seq<string>, parts: seq<string>, kparts: seq<string>, vparts: seq<string>, fl: Floats)
    requires |parts| == |ks| == |kparts| == |vparts| && (forall k :: k in m ==> k in ks)
    requires forall j :: 0 <= j < |ks| ==>
      ks[j] in m && KeyReads(kparts[j], ks[j]) && PartReads(vparts[j], m[ks[j]], fl) && parts[j] == kparts[j] + ":" + vparts[j]
    requires TextAt(s, c, "{" + Joined(parts) + "}") && n == c + |Joined(parts)| + 2
    ensures CompoundFrom(s, c, fl) == Success(Parsed(Compound(m), n))
  {
    TextAtThree(s, c, "{", Joined(parts), "}");
    TextAtChar(s, c, "{", 0);
    TextAtChar(s, n - 1, "}", 0);
    EntriesRead(s, c + 1, n - 1, m, ks, parts, kparts, vparts, fl);
    CompoundOpen(s, c, fl);
  }

  /**
   * The layout of a compound's text with textual keys whose values read back:
   * braces around the entry texts `key:value` over its keys in order, each key
   * and value text reading back as the key and its value.
   */
  lemma {:induction false} CompoundLayout(v: Nbt, tx: Texts, t: string, fl: Floats) returns (ks: seq<string>, parts: seq<string>, kparts: seq<string>, vparts: seq<string>)
    requires v.Compound? && t == Render(v, tx)
    requires forall k :: k in v.entries ==> TextualKey(k) && PartReads(Render(v.entries[k], tx), v.entries[k], fl)
    ensures |parts| == |ks| == |kparts| == |vparts| && (forall k :: k in v.entries ==> k in ks)
    ensures forall j :: 0 <= j < |ks| ==>
      ks[j] in v.entries && KeyReads(kparts[j], ks[j]) && PartReads(vparts[j], v.entries[ks[j]], fl) && parts[j] == kparts[j] + ":" + vparts[j]
    ensures t == "{" + Joined(parts) + "}"
  {
    ks, parts, kparts, vparts := CompoundTexts(v, tx);
    forall j | 0 <= j < |ks|
      ensures ks[j] in v.entries && KeyReads(kparts[j], ks[j]) && PartReads(vparts[j], v.entries[ks[j]], fl)
        && parts[j] == kparts[j] + ":" + vparts[j]
    {
      EntryLayout(ks[j], parts[j], kparts[j], vparts[j], v.entries[ks[j]], tx, fl);
    }
  }

  /** A compound's text: braces around the entry texts `key:value` over its keys in order. */
  lemma {:induction false} CompoundTexts(v: Nbt, tx: Texts) returns (ks: seq<string>, parts: seq<string>, kparts: seq<string>, vparts: seq<string>)
    requires v.Compound?
    ensures |parts| == |ks| == |kparts| == |vparts| && (forall k :: k in v.entries ==> k in ks)
    ensures forall j :: 0 <= j < |ks| ==>
      ks[j] in v.entries && kparts[j] == KeyText(ks[j]) && vparts[j] == Render(v.entries[ks[j]], tx) && parts[j] == kparts[j] + ":" + vparts[j]
    ensures Render(v, tx) == "{" + Joined(parts) + "}"
  {
    var m := v.entries;
    ks, parts := SortedKeys(m.Keys), CompoundParts(v, tx);
    kparts := seq(|ks|, j requires 0 <= j < |ks| => KeyText(ks[j]));
    vparts := seq(|ks|, j requires 0 <= j < |ks| && ks[j] in m => Render(m[ks[j]], tx));
    forall j | 0 <= j < |ks|
      ensures ks[j] in m && kparts[j] == KeyText(ks[j]) && vparts[j] == Render(m[ks[j]], tx) && parts[j] == kparts[j] + ":" + vparts[j]
    {
      CompoundPartAt(v, tx, j);
    }
  }

  /** One entry text `key:value` whose key is textual and whose value text reads back. */
  lemma {:induction false} EntryLayout(k: string, part: string, kt: string, vt: string, e: Nbt, tx: Texts, fl: Floats)
    requires TextualKey(k) && PartReads(vt, e, fl) && kt == KeyText(k) && part == KeyText(k) + ":" + vt
    ensures KeyReads(kt, k) && PartReads(vt, e, fl) && part == kt + ":" + vt
  {
    KeyTextReads(k);
  }

  /**
   * A compound with textual keys whose values read back is read back by
   * `parseCompound` wherever it stands, whatever follows it.
   */
  lemma {:induction false} CompoundReadsAt(v: Nbt, tx: Texts, t: string, s: string, c: nat, n: nat, fl: Floats)
    requires v.Compound? && t == Render(v, tx)
    requires forall k :: k in v.entries ==> TextualKey(k) && PartReads(Render(v.entries[k], tx), v.entries[k], fl)
    requires TextAt(s, c, t) && n == c + |t|
    ensures CompoundFrom(s, c, fl) == Success(Parsed(v, n))
  {
    var ks, parts, kparts, vparts := CompoundLayout(v, tx, t, fl);
    CompoundTextReads(s, c, n, v.entries, ks, parts, kparts, vparts, fl);
  }

  /** Such a compound reads back as a value wherever it stands before a closer. */
  lemma {:induction false} CompoundPartReads(v: Nbt, tx: Texts, t: string, fl: Floats)
    requires v.Compound? && t == Render(v, tx)
    requires forall k :: k in v.entries ==> TextualKey(k) && PartReads(Render(v.entries[k], tx), v.entries[k], fl)
    ensures PartReads(t, v, fl)
  {
    var ks, parts, kparts, vparts := CompoundLayout(v, tx, t, fl);
    forall s: string, c: nat | TextAt(s, c, t) && c + |t| < |s| && IsCloser(s[c + |t|])
      ensures ItemStart(s[c]) && ValueFrom(s, c, fl) == Success(Parsed(v, c + |t|))
    {
      CompoundValueAt(s, c, c + |t|, v.entries, ks, parts, kparts, vparts, fl);
    }
  }

  /** Braced entry texts standing at `c` before a closer are read from `c` as the compound. */
  lemma {:induction false} CompoundValueAt(s: string, c: nat, n: nat, m: map<string, Nbt>, ks: seq<string>, parts: seq<string>, kparts: seq<string>, vparts: seq<string>, fl: Floats)
    requires |parts| == |ks| == |kparts| == |vparts| && (forall k :: k in m ==> k in ks)
    requires forall j :: 0 <= j < |ks| ==>
      ks[j] in m && KeyReads(kparts[j], ks[j]) && PartReads(vparts[j], m[ks[j]], fl) && parts[j] == kparts[j] + ":" + vparts[j]
    requires TextAt(s, c, "{" + Joined(parts) + "}") && n == c + |Joined(parts)| + 2 && n < |s|
    ensures ItemStart(s[c]) && ValueFrom(s, c, fl) == Success(Parsed(Compound(m), n))
  {
    CompoundTextReads(s, c, n, m, ks, parts, kparts, vparts, fl);
    TextAtChar(s, c, "{" + Joined(parts) + "}", 0);
    CompoundValueLaid(s, c, n, Compound(m), fl);
  }

  /** Where `{` stands and the compound is read from it, the value read there is that compound. */
  lemma {:induction false} CompoundValueLaid(s: string, c: nat, n: nat, v: Nbt, fl: Floats)
    requires c < |s| && s[c] == '{' && CompoundFrom(s, c, fl) == Success(Parsed(v, n))
    ensures ItemStart(s[c]) && ValueFrom(s, c, fl) == Success(Parsed(v, n))
  {
    CompoundDispatch(s, c, fl);
  }

  // ----- the round trip -----

  /** Every textual value reads back as itself wherever its text stands before a closer. */
  lemma {:induction false} ValueReads(v: Nbt, tx: Texts, fl: Floats)
    requires Textual(v)
    ensures PartReads(Render(v, tx), v, fl)
    decreases v
  {
    if IsInteger(v) {
      IntegerPartReads(v, tx, fl);
    } else if v.Str? {
      StringPartReads(v.text, tx, fl);
    } else if IsArray(v) {
      ArrayPartReads(v, tx, Render(v, tx), fl);
    } else if v.List? {
      forall i | 0 <= i < |v.items| ensures PartReads(Render(v.items[i], tx), v.items[i], fl) {
        ValueReads(v.items[i], tx, fl);
      }
      ListPartReads(v, tx, Render(v, tx), fl);
    } else {
      forall k | k in v.entries ensures PartReads(Render(v.entries[k], tx), v.entries[k], fl) {
        ValueReads(v.entries[k], tx, fl);
      }
      CompoundPartReads(v, tx, Render(v, tx), fl);
    }
  }

  /**
   * The text round trip: a textual compound, as the string visitor writes it,
   * is parsed back by `NBTParser.parse` as the same compound, whatever text
   * follows it, since the parser never looks past the closing brace.
   */
  lemma {:induction false} TextRoundTrip(v: Nbt, tx: Texts, rest: string, fl: Floats)
    requires v.Compound? && Textual(v)
    ensures ParseText(Render(v, tx) + rest, fl) == Success(v)
  {
    forall k | k in v.entries ensures TextualKey(k) && PartReads(Render(v.entries[k], tx), v.entries[k], fl) {
      ValueReads(v.entries[k], tx, fl);
    }
    TextReadsWhole(v, tx, Render(v, tx), rest, fl);
  }

  /** The round trip for a text `t` already known to be the compound's rendering. */
  lemma {:induction false} TextReadsWhole(v: Nbt, tx: Texts, t: string, rest: string, fl: Floats)
    requires v.Compound? && t == Render(v, tx)
    requires forall k | k in v.entries :: TextualKey(k) && PartReads(Render(v.entries[k], tx), v.entries[k], fl)
    ensures ParseText(t + rest, fl) == Success(v)
  {
    TrimKeepsFront(t, rest);
    var s := Trim(t + rest);
    assert TextAt(s, 0, t) by {
      forall i | 0 <= i < |t| ensures s[i] == t[i] {
        assert s[..|t|][i] == t[i];
      }
    }
    CompoundReadsAt(v, tx, t, s, 0, |t|, fl);
  }

  // ----- what the domain leaves out -----

  /**
   * A string holding NUL before any quote does not read back: the visitor
   * escapes the NUL with a backslash, and the parser rejects the escape.
   */
  lemma {:induction false} NulUnreadable()
    ensures Quoted("\0") == "\"\\\0\""
    ensures StringAt(Quoted("\0"), 0) == Failure(Syntax(InvalidEscape('\0'), 2))
  {
    var t := "\0";
    assert FirstQuote(t) == None;
    assert NeedsBackslash(t, 0);
    assert Escaped(t, 1) == "\\\0";
    var s := "\"\\\0\"";
    EscapeRejected(s, '"', 1, 1, "");
  }

  /**
   * A list whose first element is a string starting with `;` does not read
   * back: its text has `;` two places after the `[`, so `parseValue` takes it
   * for a typed array, and `parseArray` rejects the quote as a type letter.
   */
  lemma {:induction false} SemicolonListUnreadable(s: string, c: nat, tx: Texts, fl: Floats)
    requires TextAt(s, c, "[\";\"]")
    ensures Render(List(STRING, [Str(";")]), tx) == "[\";\"]"
    ensures ValueAt(s, c, fl) == Failure(Syntax(ArrayInvalid('"'), c + 1))
  {
    var v := List(STRING, [Str(";")]);
    assert FirstQuote(";") == None;
    assert Escaped(";", 1) == ";";
    assert Render(Str(";"), tx) == "\";\"";
    assert ListParts(v, tx) == ["\";\""];
    JoinedOne("\";\"");
    TextAtChar(s, c, "[\";\"]", 0);
    TextAtChar(s, c, "[\";\"]", 1);
    TextAtChar(s, c, "[\";\"]", 2);
    WsStays(s, c);
    WsStays(s, c + 1);
    assert EatAt(s, c, '[') == Success(c + 1);
  }

  /** An empty list reads back typed END whatever type it was declared with: `[]` carries no element tag. */
  lemma {:induction false} EmptyListTypeLost(t: Tag, s: string, c: nat, tx: Texts, fl: Floats)
    requires TextAt(s, c, "[]") && c + 2 < |s| && IsCloser(s[c + 2])
    ensures Render(List(t, []), tx) == "[]"
    ensures ValueAt(s, c, fl) == Success(Parsed(List(END, []), c + 2))
  {
    assert Joined(ListParts(List(t, []), tx)) == "";
    assert Render(List(END, []), tx) == "[]";
    ListReadsAt(List(END, []), tx, "[]", s, c, c + 2, fl);
  }
}
