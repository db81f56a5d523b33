/**
 * The collection quirks of the text parser, stated over the loop of
 * `parseCollection` for any input: the first list element fixes the list's
 * type and a later one of another tag is rejected where it starts, a comma
 * before the closing character is accepted, a repeated key loses the earlier
 * value, and a key may be empty.
 */
module CollectionLaws {
  import opened Wrappers
  import opened Tags
  import opened Values
  import opened Malformed
  import opened Readers
  import opened TextGrammar
  import opened TextLaws

  // ----- lists and arrays -----

  /** The first element of a list, followed by a comma, fixes the list's element type to its own tag. */
  lemma FirstElementFixesType(s: string, c: nat, v: Nbt, n: nat, fl: Floats)
    requires c < |s| && s[c] != ']'
    requires ValueAt(s, c, fl) == Success(Parsed(v, n))
    requires SeparatorAt(s, n).0
    ensures ListItems(s, c, END, [], fl) == ListItems(s, SeparatorAt(s, n).1, TagOf(v), [v], fl)
  {
    assert [] + [v] == [v];
  }

  /** An element whose tag is not the list's fixed type is LIST_MIXED, raised at the element's start. */
  lemma ListMixedAtStart(s: string, c: nat, t: Tag, items: seq<Nbt>, v: Nbt, n: nat, fl: Floats)
    requires c < |s| && s[c] != ']'
    requires ValueAt(s, c, fl) == Success(Parsed(v, n))
    requires t != END && TagOf(v) != t
    ensures ListItems(s, c, t, items, fl) == Failure(Syntax(ListMixed(TagOf(v), t), c))
  {
  }

  /**
   * A list whose second element has another tag than its first is rejected
   * with LIST_MIXED at the second element's start, whatever follows it.
   */
  lemma MixedListRejected(s: string, c: nat, v1: Nbt, n1: nat, c2: nat, v2: Nbt, n2: nat, fl: Floats)
    requires c < |s| && s[c] != ']'
    requires ValueAt(s, c, fl) == Success(Parsed(v1, n1))
    requires SeparatorAt(s, n1) == (true, c2)
    requires c2 < |s| && s[c2] != ']'
    requires ValueAt(s, c2, fl) == Success(Parsed(v2, n2))
    requires TagOf(v2) != TagOf(v1)
    ensures ListItems(s, c, END, [], fl) == Failure(Syntax(ListMixed(TagOf(v2), TagOf(v1)), c2))
  {
    FirstElementFixesType(s, c, v1, n1, fl);
    assert v1 != End;
    ListMixedAtStart(s, c2, TagOf(v1), [v1], v2, n2, fl);
  }

  /** An element of a typed array whose tag is not the array's element tag is ARRAY_MIXED, raised at the element's start. */
  lemma ArrayMixedAtStart(s: string, c: nat, t: Tag, xs: seq<Nbt>, v: Nbt, n: nat, fl: Floats)
    requires c < |s| && s[c] != ']'
    requires t == BYTE || t == INT || t == LONG
    requires forall i :: 0 <= i < |xs| ==> TagOf(xs[i]) == t
    requires ValueAt(s, c, fl) == Success(Parsed(v, n)) && TagOf(v) != t
    ensures ArrayItems(s, c, t, xs, fl) == Failure(Syntax(ArrayMixed(TagOf(v), t), c))
  {
  }

  /** A comma after the last list element is accepted: the `]` after it closes the list with that element last. */
  lemma ListTrailingComma(s: string, c: nat, t: Tag, items: seq<Nbt>, v: Nbt, n: nat, e: nat, fl: Floats)
    requires c < |s| && s[c] != ']'
    requires ValueAt(s, c, fl) == Success(Parsed(v, n))
    requires t == END || TagOf(v) == t
    requires SeparatorAt(s, n) == (true, e)
    requires e < |s| && s[e] == ']'
    ensures ListItems(s, c, t, items, fl) == Success(Parsed(List(TagOf(v), items + [v]), e + 1))
  {
    WsStays(s, e);
    Closes(s, e, ']', List(TagOf(v), items + [v]));
  }

  // ----- compounds -----

  /** A comma after the last entry of a compound is accepted: the `}` after it closes the compound. */
  lemma CompoundTrailingComma(s: string, c: nat, m: map<string, Nbt>, k: string, kn: nat, j: nat, v: Nbt, n: nat, e: nat, fl: Floats)
    requires c < |s| && s[c] != '}'
    requires KeyAt(s, c) == Success(Parsed(k, kn))
    requires EatAt(s, kn, ':') == Success(j)
    requires ValueAt(s, Ws(s, j), fl) == Success(Parsed(v, n))
    requires SeparatorAt(s, n) == (true, e)
    requires e < |s| && s[e] == '}'
    ensures Entries(s, c, m, fl) == Success(Parsed(Compound(m[k := v]), e + 1))
  {
    WsStays(s, e);
    Closes(s, e, '}', Compound(m[k := v]));
  }

  /**
   * An entry rebinds its key whatever the entries before it bound the key
   * to: the loop from an entry with key `k` gives the same outcome whether or
   * not `k` was already bound, and to what.
   */
  lemma RepeatedKeyKeepsLater(s: string, c: nat, m: map<string, Nbt>, k: string, kn: nat, w: Nbt, fl: Floats)
    requires c < |s| && s[c] != '}'
    requires KeyAt(s, c) == Success(Parsed(k, kn))
    ensures Entries(s, c, m[k := w], fl) == Entries(s, c, m, fl)
  {
    var j := EatAt(s, kn, ':');
    if j.Success? {
      var v := ValueAt(s, Ws(s, j.value), fl);
      if v.Success? {
        assert m[k := w][k := v.value.value] == m[k := v.value.value];
      }
    }
  }

  /**
   * Two entries with the same key in a row: the earlier one is lost, since
   * reading both gives what reading only the later one gives.
   */
  lemma EarlierDuplicateLost(s: string, c: nat, m: map<string, Nbt>, k: string, kn: nat, j: nat, v: Nbt, n: nat, c2: nat, kn2: nat, fl: Floats)
    requires c < |s| && s[c] != '}'
    requires KeyAt(s, c) == Success(Parsed(k, kn))
    requires EatAt(s, kn, ':') == Success(j)
    requires ValueAt(s, Ws(s, j), fl) == Success(Parsed(v, n))
    requires SeparatorAt(s, n) == (true, c2)
    requires c2 < |s| && s[c2] != '}'
    requires KeyAt(s, c2) == Success(Parsed(k, kn2))
    ensures Entries(s, c, m, fl) == Entries(s, c2, m, fl)
  {
    assert Entries(s, c, m, fl) == Entries(s, c2, m[k := v], fl);
    RepeatedKeyKeepsLater(s, c2, m, k, kn2, v, fl);
  }

  /** An unquoted key may be empty: a `:` where the key should start reads as the empty key, the cursor left on the `:`. */
  lemma EmptyKeyAccepted(s: string, c: nat)
    requires c <= |s|
    requires Ws(s, c) < |s| && s[Ws(s, c)] == ':'
    ensures KeyAt(s, c) == Success(Parsed("", Ws(s, c)))
  {
    UnquotedEndAt(s, Ws(s, c), Ws(s, c));
  }
}
