/**
 * `NBTString.quoteAndEscape`: wraps text in the quote character it does not
 * start with, backslash-escaping later occurrences of that delimiter.
 */
module QuotedStrings {
  import opened Wrappers

  /** The character the loop starts with as its "no quote chosen yet" state. */
  const Nul: char := '\0'

  predicate IsQuote(c: char)
  {
    c == '"' || c == '\''
  }

  /** The position of the first quote character, if any. */
  function FirstQuote(s: string): (r: Option<nat>)
    ensures r.Some? ==> r.value < |s| && IsQuote(s[r.value]) && forall j :: 0 <= j < r.value ==> !IsQuote(s[j])
    ensures r.None? ==> forall j :: 0 <= j < |s| ==> !IsQuote(s[j])
  {
    if s == [] then None
    else if IsQuote(s[0]) then Some(0)
    else
      match FirstQuote(s[1..])
      case None => None
      case Some(k) => Some(k + 1)
  }

  /** The delimiter: the other kind of quote than the first one in the text, `"` when there is none. */
  function Delimiter(s: string): (d: char)
    ensures IsQuote(d)
    ensures FirstQuote(s).None? ==> d == '"'
    ensures FirstQuote(s).Some? ==> (d == '\'' <==> s[FirstQuote(s).value] == '"')
  {
    match FirstQuote(s)
    case None => '"'
    case Some(f) => if s[f] == '"' then '\'' else '"'
  }

  /**
   * Whether a backslash goes before character `i`: before the first quote the
   * chosen "quote" is still NUL, so a NUL character is escaped; after it, each
   * occurrence of the delimiter is. The first quote itself never is.
   */
  predicate NeedsBackslash(s: string, i: nat)
    requires i < |s|
  {
    match FirstQuote(s)
    case None => s[i] == Nul
    case Some(f) => (i < f && s[i] == Nul) || (f < i && s[i] == Delimiter(s))
  }

  /** The first `n` characters of the text, each preceded by a backslash where one is needed. */
  function Escaped(s: string, n: nat): (e: string)
    requires n <= |s|
    decreases n
  {
    if n == 0 then []
    else Escaped(s, n - 1) + (if NeedsBackslash(s, n - 1) then ['\\'] else []) + [s[n - 1]]
  }

  /** The positions that receive a backslash among the first `n`. */
  function Inserted(s: string, n: nat): set<nat>
    requires n <= |s|
  {
    set i: nat | i < n && NeedsBackslash(s, i)
  }

  /** The text `quoteAndEscape` makes of `s`: the delimiter, the escaped text, the delimiter. */
  function Quoted(s: string): string
  {
    [Delimiter(s)] + Escaped(s, |s|) + [Delimiter(s)]
  }

  /** `quoteAndEscape(string)` */
  method QuoteAndEscape(s: string) returns (r: string)
    ensures r == [Delimiter(s)] + Escaped(s, |s|) + [Delimiter(s)]
  {
    var quote := Nul;
    var builder := [];
    var i := 0;
    while i < |s|
      invariant 0 <= i <= |s|
      invariant builder == Escaped(s, i)
      invariant quote == Nul <==> forall j :: 0 <= j < i ==> !IsQuote(s[j])
      invariant quote != Nul ==> FirstQuote(s).Some? && FirstQuote(s).value < i && quote == Delimiter(s)
    {
      var c := s[i];
      if quote == c {
        builder := builder + ['\\'];
      } else if quote == Nul && c == '"' {
        quote := '\'';
      } else if quote == Nul && c == '\'' {
        quote := '"';
      }
      builder := builder + [c];
      i := i + 1;
    }
    if quote == Nul {
      quote := '"';
    }
    r := [quote] + builder + [quote];
  }

  /** The output starts and ends with the same delimiter, a quote character. */
  lemma QuotedEnds(s: string, r: string)
    requires r == [Delimiter(s)] + Escaped(s, |s|) + [Delimiter(s)]
    ensures |r| >= 2 && r[0] == r[|r| - 1] && IsQuote(r[0])
    ensures FirstQuote(s).Some? && s[FirstQuote(s).value] == '"' ==> r[0] == '\''
    ensures FirstQuote(s).Some? && s[FirstQuote(s).value] == '\'' ==> r[0] == '"'
    ensures FirstQuote(s).None? ==> r[0] == '"'
  {
  }

  /** Each inserted backslash adds one character: the output is the input plus two delimiters plus the backslashes. */
  lemma {:induction false} EscapedLength(s: string, n: nat)
    requires n <= |s|
    ensures |Escaped(s, n)| == n + |Inserted(s, n)|
  {
    if n > 0 {
      EscapedLength(s, n - 1);
      if NeedsBackslash(s, n - 1) {
        assert Inserted(s, n) == Inserted(s, n - 1) + {n - 1};
      } else {
        assert Inserted(s, n) == Inserted(s, n - 1);
      }
    }
  }

  /** Text with neither quote characters nor NUL is only wrapped in double quotes. */
  lemma {:induction false} PlainTextUnchanged(s: string, n: nat)
    requires n <= |s|
    requires forall i :: 0 <= i < |s| ==> !IsQuote(s[i]) && s[i] != Nul
    ensures Escaped(s, n) == s[..n]
    ensures Delimiter(s) == '"'
  {
    if n > 0 {
      PlainTextUnchanged(s, n - 1);
      assert s[..n] == s[..n - 1] + [s[n - 1]];
    }
  }

  /**
   * Removing every inserted backslash gives back the text: stated as the
   * positions of the output, the i-th character of the text sits at its index
   * plus the backslashes inserted before it, and a backslash sits just before
   * it exactly when one was needed.
   */
  lemma {:induction false} EscapedLayout(s: string, n: nat, i: nat)
    requires i < n <= |s|
    ensures var p := i + |Inserted(s, i + 1)|;
      p < |Escaped(s, n)| && Escaped(s, n)[p] == s[i]
      && (NeedsBackslash(s, i) ==> p >= 1 && Escaped(s, n)[p - 1] == '\\')
    decreases n
  {
    EscapedLength(s, i + 1);
    EscapedLength(s, n);
    if n == i + 1 {
    } else {
      EscapedLayout(s, n - 1, i);
      assert Inserted(s, i + 1) <= Inserted(s, n - 1);
      assert |Inserted(s, i + 1)| <= |Inserted(s, n - 1)| by {
        SubsetCard(Inserted(s, i + 1), Inserted(s, n - 1));
      }
      var tail := (if NeedsBackslash(s, n - 1) then ['\\'] else []) + [s[n - 1]];
      assert Escaped(s, n) == Escaped(s, n - 1) + tail;
    }
  }

  lemma SubsetCard(a: set<nat>, b: set<nat>)
    requires a <= b
    ensures |a| <= |b|
  {
    assert b == a + (b - a);
  }
}
