/**
 * `MalformedNBTException`: the problems the text parser reports, the message
 * each one carries, and the context window `getContext` cuts out of the input
 * around the cursor where the problem was found.
 */
module Malformed {
  import opened Wrappers
  import opened Tags
  import opened Values
  import opened Decimals

  /** The exception types the parser raises, with the arguments they are created with. */
  datatype Problem =
    | ArrayInvalid(typeChar: char)
    | ArrayMixed(found: Tag, expected: Tag)
    | ExpectedKey
    | ExpectedValue
    | ListMixed(found: Tag, expected: Tag)
    | ExpectedEndOfQuote
    | InvalidEscape(escaped: char)
    | ExpectedSymbol(symbol: char)

  /** A problem found with the reader's cursor at `at`: the exception made "with context" from the reader. */
  datatype Syntax = Syntax(problem: Problem, at: int)

  /** The message of each exception type, its arguments filled in (a tag prints as its enum name). */
  function MessageOf(p: Problem): (m: string)
    ensures |m| > 0
    ensures (p.ArrayMixed? || p.ListMixed?) ==>
      |m| >= 13 + |Name(p.found)| && m[..13] == "Can't insert " && m[13..13 + |Name(p.found)|] == Name(p.found)
    ensures p.ArrayInvalid? ==> p.typeChar in m
    ensures p.InvalidEscape? ==> p.escaped in m
    ensures p.ExpectedSymbol? ==> p.symbol in m
  {
    match p
    case ArrayInvalid(c) => "Invalid array type '" + [c] + "'"
    case ArrayMixed(found, expected) => "Can't insert " + Name(found) + " into " + Name(expected)
    case ExpectedKey => "Expected key"
    case ExpectedValue => "Expected value"
    case ListMixed(found, expected) => "Can't insert " + Name(found) + " into list of " + Name(expected)
    case ExpectedEndOfQuote => "Unclosed quoted string"
    case InvalidEscape(c) => "Invalid escape sequence '" + [c] + "' in quoted string"
    case ExpectedSymbol(c) => "Expected '" + [c] + "'"
  }

  /** The exception's final fields: its raw message, the input (null as `None`) and the cursor. */
  datatype MalformedNbt = MalformedNbt(message: string, input: Option<string>, cursor: int)

  /** The default of the static `SUBPART_SHOWN` setting, which the functions below take as a parameter. */
  const DefaultSubpartShown := 10

  /** The constructor taking only a message: no input, cursor -1, and so never a context. */
  function WithoutContext(message: string): (e: MalformedNbt)
    ensures e.message == message
    ensures forall shown :: GetContext(e, shown) == Success(None)
    ensures forall shown :: GetMessage(e, shown) == Success(message)
  {
    MalformedNbt(message, None, -1)
  }

  /** The exception raised for `problem` with the reader over `input` at `cursor`. */
  function Raised(problem: Problem, input: string, cursor: int): (e: MalformedNbt)
    ensures e.message == MessageOf(problem) && e.input == Some(input) && e.cursor == cursor
  {
    MalformedNbt(MessageOf(problem), Some(input), cursor)
  }

  /** The cursor clamped to the input: where the window ends. */
  function Clamped(e: MalformedNbt): (c: nat)
    requires e.input.Some? && e.cursor >= 0
    ensures c <= |e.input.value| && c <= e.cursor
    ensures c == |e.input.value| || c == e.cursor
  {
    if |e.input.value| < e.cursor then |e.input.value| else e.cursor
  }

  /**
   * `getContext()`: null without an input or with a negative cursor; otherwise
   * "..." when text is cut off, the up to `shown` characters before the clamped
   * cursor, and the marker. A negative `shown` makes the window start after its
   * end, which `StringBuilder.append` rejects.
   */
  function GetContext(e: MalformedNbt, shown: int): (r: Result<Option<string>, Thrown>)
    ensures r == Success(None) <==> e.input.None? || e.cursor < 0
    ensures r.Failure? <==> e.input.Some? && e.cursor >= 0 && shown < 0
    ensures r.Failure? ==> r.error == IndexOutOfBounds
  {
    if e.input.None? || e.cursor < 0 then Success(None)
    else
      var input := e.input.value;
      var c := Clamped(e);
      var from := if 0 < c - shown then c - shown else 0;
      if from > c then Failure(IndexOutOfBounds)
      else Success(Some((if c > shown then "..." else "") + input[from..c] + "<--[HERE]"))
  }

  /** `getMessage()`: the raw message, followed by the position and the context when there is one. */
  function GetMessage(e: MalformedNbt, shown: int): (r: Result<string, Thrown>)
    ensures r.Success? <==> GetContext(e, shown).Success?
    ensures GetContext(e, shown) == Success(None) ==> r == Success(e.message)
    ensures r.Success? ==> |r.value| >= |e.message| && r.value[..|e.message|] == e.message
  {
    var context :- GetContext(e, shown);
    if context.Some? then Success(e.message + " at position " + IntText(e.cursor) + ": " + context.value)
    else Success(e.message)
  }

  // ----- the context window -----

  const Marker := "<--[HERE]"

  /**
   * With an input, a cursor and a non-negative `shown`, the context is the
   * last `min(c, shown)` characters before the clamped cursor `c`, then the
   * marker, preceded by "..." exactly when characters before the window are left out.
   */
  lemma ContextWindow(e: MalformedNbt, shown: int)
    requires e.input.Some? && e.cursor >= 0 && shown >= 0
    ensures GetContext(e, shown).Success? && GetContext(e, shown).value.Some?
    ensures var text := GetContext(e, shown).value.value;
      var c := Clamped(e);
      var w := if c < shown then c else shown;
      var lead := if w < c then "..." else "";
      text == lead + e.input.value[c - w..c] + Marker
  {
  }

  /** The context always ends with the marker and shows at most `shown` characters of input besides "..." and the marker. */
  lemma ContextBounded(e: MalformedNbt, shown: int)
    requires e.input.Some? && e.cursor >= 0 && shown >= 0
    ensures var text := GetContext(e, shown).value.value;
      |text| >= |Marker| && text[|text| - |Marker|..] == Marker
      && |text| <= 3 + shown + |Marker|
  {
    ContextWindow(e, shown);
  }

  /** With a context, the message continues with " at position ", the cursor in decimal, ": " and the context. */
  lemma MessageWithContext(e: MalformedNbt, shown: int)
    requires e.input.Some? && e.cursor >= 0 && shown >= 0
    ensures var m := GetMessage(e, shown).value;
      var tail := " at position " + IntText(e.cursor) + ": " + GetContext(e, shown).value.value;
      m == e.message + tail && m[|m| - |Marker|..] == Marker
  {
    ContextBounded(e, shown);
  }
}
