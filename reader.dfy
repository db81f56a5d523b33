/**
 * `StringReader`: a cursor over a string, bounded by `end`, from which the text
 * parser peeks and reads characters.
 */
module Readers {
  import opened Wrappers
  import opened Values
  import opened Malformed

  /** `Character.isWhitespace`: the separators other than the no-break spaces, and the control whitespace characters. */
  predicate IsWhitespace(c: char)
  {
    var n := c as int;
    (0x09 <= n <= 0x0D) || (0x1C <= n <= 0x20)
    || n == 0x1680 || (0x2000 <= n <= 0x2006) || (0x2008 <= n <= 0x200A)
    || n == 0x2028 || n == 0x2029 || n == 0x205F || n == 0x3000
  }

  /** The predicate `skipWhitespace` reads until. */
  predicate NotWhitespace(c: char)
  {
    !IsWhitespace(c)
  }

  /** Where `readUntil` stops: at a character satisfying the predicate, at `end`, or on an index outside the input. */
  datatype Scanned = Found(at: int) | RanOut(at: int) | OutOfBounds(at: int)

  /**
   * The scan `readUntil(stop)` makes from cursor `c`: while `c + 1 <= end` it
   * peeks at the character under the cursor, stopping on one that satisfies
   * `stop` and passing over the others.
   */
  function Scan(input: string, end: int, stop: char -> bool, c: int): (r: Scanned)
    ensures c <= r.at
    ensures r.Found? ==> 0 <= c && r.at < end && r.at < |input| && stop(input[r.at])
    ensures r.RanOut? ==> r.at == (if c < end then end else c)
    ensures r.OutOfBounds? ==> r.at < end && (r.at < 0 || |input| <= r.at)
    ensures !r.OutOfBounds? && c < r.at ==> 0 <= c && r.at <= |input|
    ensures 0 <= c && end <= |input| ==> !r.OutOfBounds?
    decreases end - c
  {
    if c + 1 > end then RanOut(c)
    else if c < 0 || |input| <= c then OutOfBounds(c)
    else if stop(input[c]) then Found(c)
    else Scan(input, end, stop, c + 1)
  }

  /** Every character the scan passes over fails the predicate. */
  lemma {:induction false} ScanPasses(input: string, end: int, stop: char -> bool, c: int)
    ensures var r := Scan(input, end, stop, c);
      !r.OutOfBounds? && c < r.at ==> forall j :: c <= j < r.at ==> !stop(input[j])
    decreases end - c
  {
    if c + 1 <= end && 0 <= c < |input| && !stop(input[c]) {
      ScanPasses(input, end, stop, c + 1);
    }
  }

  /** Every character of `s` is at most U+0020: what `trim` removes. */
  predicate AllLow(s: string)
  {
    forall k :: 0 <= k < |s| ==> s[k] <= ' '
  }

  /** `t` is `s[i..j]`, and every character of `s` outside `i..j` is at most U+0020. */
  predicate TrimmedAt(s: string, t: string, i: int, j: int)
  {
    0 <= i <= j <= |s| && t == s[i..j] && AllLow(s[..i]) && AllLow(s[j..])
  }

  /** `String.trim()`: the input without its leading and trailing characters up to U+0020. */
  function Trim(s: string): (t: string)
    ensures |t| <= |s|
    ensures t != [] ==> t[0] > ' ' && t[|t| - 1] > ' '
    ensures exists i, j :: TrimmedAt(s, t, i, j)
  {
    var front := TrimStart(s);
    var u := TrimEnd(front);
    TrimKept(s, front, u);
    u
  }

  /** Trimming the front, then the end, keeps the middle of `s` between two low runs. */
  lemma {:induction false} TrimKept(s: string, t: string, u: string)
    requires |t| <= |s| && t == s[|s| - |t|..] && AllLow(s[..|s| - |t|]) && (t != [] ==> t[0] > ' ')
    requires |u| <= |t| && u == t[..|u|] && AllLow(t[|u|..]) && (u != [] ==> u[|u| - 1] > ' ')
    ensures |u| <= |s| && (u != [] ==> u[0] > ' ' && u[|u| - 1] > ' ')
    ensures TrimmedAt(s, u, |s| - |t|, |s| - |t| + |u|)
  {
    var i, j := |s| - |t|, |s| - |t| + |u|;
    SliceOfSlice(s, t, u, i, j);
    TailOfSlice(s, t, u, i, j);
    if u != [] {
      assert u[0] == t[0];
    }
  }

  /** The front `u` of the suffix `t` of `s` that starts at `i` is `s[i..j]`. */
  lemma {:induction false} SliceOfSlice(s: string, t: string, u: string, i: int, j: int)
    requires 0 <= i <= |s| && t == s[i..] && |u| <= |t| && u == t[..|u|] && j == i + |u|
    ensures u == s[i..j]
  {
    forall k | 0 <= k < |u| ensures u[k] == s[i..j][k] {
      assert u[k] == t[k] == s[i + k];
    }
  }

  /** A low rest of the suffix `t` after its front `u` is a low tail of `s` after `j`. */
  lemma {:induction false} TailOfSlice(s: string, t: string, u: string, i: int, j: int)
    requires 0 <= i <= |s| && t == s[i..] && |u| <= |t| && j == i + |u| && AllLow(t[|u|..])
    ensures AllLow(s[j..])
  {
    forall k | 0 <= k < |s| - j ensures s[j..][k] <= ' ' {
      assert s[j..][k] == t[|u|..][k];
    }
  }

  function TrimStart(s: string): (t: string)
    ensures |t| <= |s| && t == s[|s| - |t|..]
    ensures t != [] ==> t[0] > ' '
    ensures AllLow(s[..|s| - |t|])
  {
    if s != [] && s[0] <= ' ' then
      var r := TrimStart(s[1..]);
      LowFront(s, |s| - |r|);
      r
    else s
  }

  /** A low first character before a low run keeps the run low. */
  lemma LowFront(s: string, n: nat)
    requires 0 < n <= |s| && s[0] <= ' ' && AllLow(s[1..][..n - 1])
    ensures AllLow(s[..n])
  {
    forall k | 0 < k < n ensures s[..n][k] <= ' ' {
      assert s[..n][k] == s[1..][..n - 1][k - 1];
    }
  }

  function TrimEnd(s: string): (t: string)
    ensures |t| <= |s| && t == s[..|t|]
    ensures t != [] ==> t[|t| - 1] > ' '
    ensures AllLow(s[|t|..])
  {
    if s != [] && s[|s| - 1] <= ' ' then
      var r := TrimEnd(s[..|s| - 1]);
      LowBack(s, |r|);
      r
    else s
  }

  /** A low run followed by a low last character stays low. */
  lemma LowBack(s: string, n: nat)
    requires n < |s| && s[|s| - 1] <= ' ' && AllLow(s[..|s| - 1][n..])
    ensures AllLow(s[n..])
  {
    forall k | 0 <= k < |s| - n - 1 ensures s[n..][k] <= ' ' {
      assert s[n..][k] == s[..|s| - 1][n..][k];
    }
  }

  class StringReader {
    const input: string
    const start: int
    const end: int
    var cursor: int

    /** `new StringReader(input)`: the whole input, cursor at 0. */
    constructor(input: string)
      ensures this.input == input && start == 0 && end == |input| && cursor == 0
    {
      this.input := input;
      this.start := 0;
      this.end := |input|;
      this.cursor := 0;
    }

    /** The private constructor behind `substring`: the bounds are taken as given, and the cursor starts at 0. */
    constructor Slice(input: string, start: int, end: int)
      ensures this.input == input && this.start == start && this.end == end && cursor == 0
    {
      this.input := input;
      this.start := start;
      this.end := end;
      this.cursor := 0;
    }

    /** `canRead(length)`: `length` more characters lie before `end`. */
    predicate CanRead(length: int)
      reads this
      ensures 0 <= cursor && end <= |input| && 1 <= length && CanRead(length) ==> Peek(length - 1).Success?
    {
      cursor + length <= end
    }

    /** `peek(offset)`: the character `offset` after the cursor, or the exception of `charAt`. */
    function Peek(offset: int): (r: Result<char, Thrown>)
      reads this
      ensures r.Success? <==> 0 <= cursor + offset < |input|
      ensures r.Success? ==> r.value == input[cursor + offset]
      ensures r.Failure? ==> r.error == IndexOutOfBounds
    {
      var i := cursor + offset;
      if 0 <= i < |input| then Success(input[i]) else Failure(IndexOutOfBounds)
    }

    /** `getRemaining()` */
    function Remaining(): (n: int)
      reads this
      ensures n >= 1 <==> CanRead(1)
      ensures CanRead(n) && !CanRead(n + 1)
    {
      end - cursor
    }

    /** `read()`: the character under the cursor; the cursor moves on even when `charAt` throws. */
    method Read() returns (r: Result<char, Thrown>)
      modifies this
      ensures r == old(Peek(0))
      ensures cursor == old(cursor) + 1
    {
      r := Peek(0);
      cursor := cursor + 1;
    }

    /** `skip()` */
    method Skip()
      modifies this
      ensures cursor == old(cursor) + 1
    {
      cursor := cursor + 1;
    }

    /** `setCursor(cursor)` */
    method SetCursor(c: int)
      modifies this
      ensures cursor == c
    {
      cursor := c;
    }

    /** `reset()`: back to `start`, which a reader made by `substring` did not start at. */
    method Reset()
      modifies this
      ensures cursor == start
    {
      cursor := start;
    }

    /**
     * `readUntil(stop)`: the characters passed over before the first one that
     * satisfies `stop`, the cursor left on it; when `end` comes first the
     * characters are consumed all the same but the result is empty.
     */
    method ReadUntil(stop: char -> bool) returns (r: Result<string, Thrown>)
      modifies this
      ensures cursor == Scan(input, end, stop, old(cursor)).at
      ensures match Scan(input, end, stop, old(cursor))
        case Found(k) => r == Success(input[old(cursor)..k])
        case RanOut(_) => r == Success("")
        case OutOfBounds(_) => r == Failure(IndexOutOfBounds)
    {
      var result := "";
      while CanRead(1)
        invariant Scan(input, end, stop, cursor) == Scan(input, end, stop, old(cursor))
        invariant old(cursor) <= cursor && (old(cursor) < cursor ==> 0 <= old(cursor) && cursor <= |input|)
        invariant old(cursor) < cursor ==> result == input[old(cursor)..cursor]
        invariant old(cursor) == cursor ==> result == ""
        decreases end - cursor
      {
        var c := Peek(0);
        if c.Failure? {
          return Failure(c.error);
        }
        if stop(c.value) {
          return Success(result);
        }
        var d := Read();
        result := result + [d.value];
      }
      r := Success("");
    }

    /** `skipWhitespace()`: on to the first character that is not whitespace, or to `end`. */
    method SkipWhitespace() returns (r: Result<(), Thrown>)
      modifies this
      ensures cursor == Scan(input, end, NotWhitespace, old(cursor)).at
      ensures r.Failure? <==> Scan(input, end, NotWhitespace, old(cursor)).OutOfBounds?
      ensures r.Failure? ==> r.error == IndexOutOfBounds
    {
      var s := ReadUntil(NotWhitespace);
      r := if s.Success? then Success(()) else Failure(s.error);
    }

    /** What `eatSafely(expected)` answers from cursor `c`: whether the first character that is not whitespace is `expected`. */
    function EatsFrom(expected: char, c: int): (r: Result<bool, Thrown>)
      reads this
      ensures r.Failure? <==> Scan(input, end, NotWhitespace, c).OutOfBounds?
      ensures r == Success(true) <==> Scan(input, end, NotWhitespace, c).Found? && input[Scan(input, end, NotWhitespace, c).at] == expected
    {
      match Scan(input, end, NotWhitespace, c)
      case Found(k) => Success(input[k] == expected)
      case RanOut(_) => Success(false)
      case OutOfBounds(_) => Failure(IndexOutOfBounds)
    }

    /**
     * `eatSafely(expected)`: after skipping whitespace, consumes the next
     * character and answers true exactly when it is `expected`; otherwise
     * consumes nothing more and answers false.
     */
    method EatSafely(expected: char) returns (r: Result<bool, Thrown>)
      modifies this
      ensures r == EatsFrom(expected, old(cursor))
      ensures cursor == Scan(input, end, NotWhitespace, old(cursor)).at + (if r == Success(true) then 1 else 0)
    {
      var skipped := SkipWhitespace();
      if skipped.Failure? {
        return Failure(skipped.error);
      }
      if !CanRead(1) {
        return Success(false);
      }
      var found := Peek(0);
      if found.Success? && found.value == expected {
        var _ := Read();
        return Success(true);
      }
      r := Success(false);
    }

    /** `eat(expected)`: as `eatSafely`, but answering false raises EXPECTED_SYMBOL at the cursor. */
    method Eat(expected: char) returns (r: Result<(), Result<Thrown, Syntax>>)
      modifies this
      ensures r.Success? <==> EatsFrom(expected, old(cursor)) == Success(true)
      ensures EatsFrom(expected, old(cursor)) == Success(false) <==> r == Failure(Failure(Syntax(ExpectedSymbol(expected), cursor)))
      ensures cursor == Scan(input, end, NotWhitespace, old(cursor)).at + (if r.Success? then 1 else 0)
    {
      var eaten := EatSafely(expected);
      if eaten.Failure? {
        return Failure(Success(eaten.error));
      }
      if !eaten.value {
        return Failure(Failure(Syntax(ExpectedSymbol(expected), cursor)));
      }
      r := Success(());
    }

    /** `finish()`: the rest of the input up to `end`, after which the cursor is at `end`. */
    method Finish() returns (r: Result<string, Thrown>)
      modifies this
      ensures r.Success? <==> 0 <= old(cursor) <= end <= |input|
      ensures r.Success? ==> r.value == input[old(cursor)..end] && cursor == end && !CanRead(1)
      ensures r.Failure? ==> r.error == IndexOutOfBounds && cursor == old(cursor)
    {
      if 0 <= cursor <= end <= |input| {
        r := Success(input[cursor..end]);
        cursor := end;
      } else {
        r := Failure(IndexOutOfBounds);
      }
    }

    /** `substring(start, end)`: a new reader over the same input with those bounds, its cursor at 0. */
    method Substring(start: int, end: int) returns (r: StringReader)
      ensures fresh(r) && r.input == input && r.start == start && r.end == end && r.cursor == 0
    {
      r := new StringReader.Slice(input, start, end);
    }

    /** `clone()`: a field-by-field copy. */
    method Clone() returns (r: StringReader)
      ensures fresh(r) && r.input == input && r.start == start && r.end == end && r.cursor == cursor
    {
      r := new StringReader.Slice(input, start, end);
      r.cursor := cursor;
    }
  }

  // ----- properties of the cursor moves -----

  /** Skipping whitespace never moves the cursor back, and stops on a character that is not whitespace unless it reaches `end`. */
  lemma SkipWhitespaceForward(input: string, end: int, c: int)
    requires 0 <= c && end <= |input|
    ensures var k := Scan(input, end, NotWhitespace, c).at;
      c <= k && (k < end ==> !IsWhitespace(input[k])) && (k >= end ==> k == if c < end then end else c)
      && forall j :: c <= j < k ==> IsWhitespace(input[j])
  {
    ScanPasses(input, end, NotWhitespace, c);
  }

  /** Skipping whitespace twice moves no further than skipping it once. */
  lemma {:induction false} SkipWhitespaceIdempotent(input: string, end: int, c: int)
    requires !Scan(input, end, NotWhitespace, c).OutOfBounds?
    ensures Scan(input, end, NotWhitespace, Scan(input, end, NotWhitespace, c).at) == Scan(input, end, NotWhitespace, c)
  {
    var k := Scan(input, end, NotWhitespace, c).at;
    if Scan(input, end, NotWhitespace, c).Found? {
      assert NotWhitespace(input[k]);
    }
  }
}
