/**
 * `String.compareTo` and `Collections.sort` on lists of strings, as the string
 * visitor uses them to put a compound's keys in order. Java compares strings
 * by their UTF-16 code units, one after the other.
 */
module Ordering {

  // ----- UTF-16 code units -----

  /** The UTF-16 code units of one character: one unit below U+10000, a surrogate pair from there on. */
  function Units(c: char): (u: seq<int>)
    ensures |u| == 1 || |u| == 2
    ensures |u| == 1 <==> (c as int) < 0x10000
  {
    var x := c as int;
    if x < 0x10000 then [x]
    else [0xD800 + (x - 0x10000) / 0x400, 0xDC00 + (x - 0x10000) % 0x400]
  }

  /** Whether the code units `u` come before `v` where they first differ, or `u` is a proper prefix of `v`. */
  predicate UnitsBefore(u: seq<int>, v: seq<int>)
  {
    if u == [] then v != []
    else if v == [] then false
    else if u[0] != v[0] then u[0] < v[0]
    else UnitsBefore(u[1..], v[1..])
  }

  /**
   * Where a character's code units place it: below U+D800 and from U+10000 on
   * (a high surrogate first) in code point order, U+E000..U+FFFF after all of those.
   */
  function Utf16Rank(c: char): int
  {
    var x := c as int;
    if 0xE000 <= x <= 0xFFFF then x + 0x11_0000 else x
  }

  /** Comparing ranks is comparing code units: the rank is a faithful stand-in for the UTF-16 encoding. */
  lemma RankOrdersUnits(c: char, d: char)
    requires c != d
    ensures Utf16Rank(c) < Utf16Rank(d) <==> UnitsBefore(Units(c), Units(d))
  {
    var x, y := c as int, d as int;
    var u, v := Units(c), Units(d);
    if x >= 0x10000 && y >= 0x10000 && u[0] == v[0] {
      assert (x - 0x10000) / 0x400 == (y - 0x10000) / 0x400;
      assert u[1..][0] == u[1] && v[1..][0] == v[1];
      assert u[1] < v[1] <==> x < y;
    }
  }

  /** `a.compareTo(b) < 0` */
  predicate Before(a: string, b: string)
  {
    if a == [] then b != []
    else if b == [] then false
    else if a[0] != b[0] then Utf16Rank(a[0]) < Utf16Rank(b[0])
    else Before(a[1..], b[1..])
  }

  // ----- `compareTo` is a strict total order -----

  lemma RankInjective(c: char, d: char)
    requires Utf16Rank(c) == Utf16Rank(d)
    ensures c == d
  {
  }

  lemma {:induction false} BeforeIrreflexive(a: string)
    ensures !Before(a, a)
  {
    if a != [] {
      BeforeIrreflexive(a[1..]);
    }
  }

  lemma {:induction false} BeforeTransitive(a: string, b: string, c: string)
    requires Before(a, b) && Before(b, c)
    ensures Before(a, c)
  {
    if a != [] && b != [] && c != [] && a[0] == b[0] && b[0] == c[0] {
      BeforeTransitive(a[1..], b[1..], c[1..]);
    }
  }

  lemma {:induction false} BeforeTotal(a: string, b: string)
    requires a != b
    ensures Before(a, b) || Before(b, a)
  {
    if a != [] && b != [] {
      if a[0] == b[0] {
        assert a == [a[0]] + a[1..] && b == [b[0]] + b[1..];
        BeforeTotal(a[1..], b[1..]);
      } else if Utf16Rank(a[0]) == Utf16Rank(b[0]) {
        RankInjective(a[0], b[0]);
      }
    }
  }

  lemma BeforeAsymmetric(a: string, b: string)
    requires Before(a, b)
    ensures !Before(b, a)
  {
    if Before(b, a) {
      BeforeTransitive(a, b, a);
      BeforeIrreflexive(a);
    }
  }

  /** "Not after" chains: `b` is not before `a` and `c` is not before `b`, so `c` is not before `a`. */
  lemma NotBeforeTransitive(a: string, b: string, c: string)
    requires !Before(b, a) && !Before(c, b)
    ensures !Before(c, a)
  {
    if Before(c, a) {
      if a == b {
      } else {
        BeforeTotal(a, b);
        if b == c {
        } else {
          BeforeTotal(b, c);
          BeforeTransitive(c, a, b);
        }
      }
    }
  }

  // ----- `Collections.sort` -----

  /** No string is followed by one that compares below it. */
  predicate Sorted(s: seq<string>)
  {
    forall i, j :: 0 <= i < j < |s| ==> !Before(s[j], s[i])
  }

  /** `k` put into a sorted list after the strings below it. */
  function Insert(k: string, s: seq<string>): (r: seq<string>)
    requires Sorted(s)
    ensures Sorted(r) && multiset(r) == multiset(s) + multiset{k}
    ensures |r| == |s| + 1 && (r[0] == k || (s != [] && r[0] == s[0]))
  {
    if s == [] then [k]
    else if Before(s[0], k) then
      var rest := Insert(k, s[1..]);
      HeadBeforeInserted(k, s, rest);
      assert s == [s[0]] + s[1..];
      [s[0]] + rest
    else
      KeyBeforeAll(k, s);
      [k] + s
  }

  /** The head of a sorted list below `k` stays in front of the rest with `k` put in. */
  lemma HeadBeforeInserted(k: string, s: seq<string>, rest: seq<string>)
    requires s != [] && Sorted(s) && Before(s[0], k)
    requires Sorted(rest) && multiset(rest) == multiset(s[1..]) + multiset{k}
    ensures Sorted([s[0]] + rest)
  {
    forall j | 0 <= j < |rest| ensures !Before(rest[j], s[0]) {
      assert rest[j] in multiset(rest);
      if rest[j] == k {
        BeforeAsymmetric(s[0], k);
      } else {
        assert rest[j] in multiset(s[1..]);
        var m :| 0 <= m < |s[1..]| && s[1..][m] == rest[j];
        assert s[m + 1] == rest[j];
      }
    }
    var r := [s[0]] + rest;
    forall i, j | 0 <= i < j < |r| ensures !Before(r[j], r[i]) {
      if i > 0 {
        assert r[i] == rest[i - 1] && r[j] == rest[j - 1];
      }
    }
  }

  /** A key not above the head of a sorted list is not above any of it. */
  lemma KeyBeforeAll(k: string, s: seq<string>)
    requires s != [] && Sorted(s) && !Before(s[0], k)
    ensures Sorted([k] + s)
  {
    forall j | 0 <= j < |s| ensures !Before(s[j], k) {
      if j > 0 {
        NotBeforeTransitive(k, s[0], s[j]);
      }
    }
    var r := [k] + s;
    forall i, j | 0 <= i < j < |r| ensures !Before(r[j], r[i]) {
      if i > 0 {
        assert r[i] == s[i - 1] && r[j] == s[j - 1];
      }
    }
  }

  /** `Collections.sort(list)`: the strings in ascending order, each kept as often as it occurs. */
  function Sort(ks: seq<string>): (r: seq<string>)
    ensures Sorted(r) && multiset(r) == multiset(ks) && |r| == |ks|
  {
    if ks == [] then []
    else
      assert ks == ks[..|ks| - 1] + [ks[|ks| - 1]];
      Insert(ks[|ks| - 1], Sort(ks[..|ks| - 1]))
  }

  /** Two sorted lists with the same strings are the same list: the sorted order is unique. */
  lemma {:induction false} SortedUnique(x: seq<string>, y: seq<string>)
    requires Sorted(x) && Sorted(y) && multiset(x) == multiset(y)
    ensures x == y
  {
    if x != [] {
      SortedSameHead(x, y);
      SortedTail(x);
      SortedTail(y);
      SameTails(x, y);
      SortedUnique(x[1..], y[1..]);
      assert x == [x[0]] + x[1..] && y == [y[0]] + y[1..];
    } else {
      assert |y| == |multiset(y)|;
    }
  }

  /** Two sorted lists with the same strings start with the same string. */
  lemma SortedSameHead(x: seq<string>, y: seq<string>)
    requires x != [] && Sorted(x) && Sorted(y) && multiset(x) == multiset(y)
    ensures y != [] && x[0] == y[0]
  {
    assert x[0] in multiset(y);
    assert y[0] in multiset(x);
    var i :| 0 <= i < |y| && y[i] == x[0];
    var j :| 0 <= j < |x| && x[j] == y[0];
    if x[0] != y[0] {
      assert i > 0 && j > 0;
      BeforeTotal(x[0], y[0]);
    }
  }

  /** The tail of a sorted list is sorted. */
  lemma SortedTail(x: seq<string>)
    requires x != [] && Sorted(x)
    ensures Sorted(x[1..])
  {
    forall i, j | 0 <= i < j < |x[1..]| ensures !Before(x[1..][j], x[1..][i]) {
      assert x[1..][j] == x[j + 1] && x[1..][i] == x[i + 1];
    }
  }

  /** Lists with the same strings and the same head have tails with the same strings. */
  lemma SameTails(x: seq<string>, y: seq<string>)
    requires x != [] && y != [] && x[0] == y[0] && multiset(x) == multiset(y)
    ensures multiset(x[1..]) == multiset(y[1..])
  {
    assert x == [x[0]] + x[1..] && y == [y[0]] + y[1..];
    assert multiset(x) == multiset{x[0]} + multiset(x[1..]);
    assert multiset(y) == multiset{y[0]} + multiset(y[1..]);
    assert multiset(x[1..]) == multiset(x) - multiset{x[0]} == multiset(y) - multiset{y[0]} == multiset(y[1..]);
  }

  /** Sorting forgets the order the strings came in: the same strings in any order sort alike. */
  lemma SortIgnoresOrder(a: seq<string>, b: seq<string>)
    requires multiset(a) == multiset(b)
    ensures Sort(a) == Sort(b)
  {
    SortedUnique(Sort(a), Sort(b));
  }

  // ----- the keys of a compound -----

  /** Some enumeration of a set of keys: the order a `HashMap` key set hands them out in. */
  ghost function KeySeq(ks: set<string>): (r: seq<string>)
    ensures multiset(r) == multiset(ks)
    decreases |ks|
  {
    if ks == {} then []
    else
      var k :| k in ks;
      [k] + KeySeq(ks - {k})
  }

  /** The keys of a compound the way the visitor lists them: copied into a list and sorted. */
  ghost function SortedKeys(ks: set<string>): (r: seq<string>)
    ensures Sorted(r) && |r| == |ks|
    ensures forall i :: 0 <= i < |r| ==> r[i] in ks
    ensures forall k :: k in ks ==> k in r
  {
    var r := Sort(KeySeq(ks));
    SameMembers(r, ks);
    r
  }

  /** A list holding the strings of a set once each holds exactly the set's members. */
  lemma SameMembers(r: seq<string>, ks: set<string>)
    requires multiset(r) == multiset(ks)
    ensures |r| == |ks|
    ensures forall i :: 0 <= i < |r| ==> r[i] in ks
    ensures forall k :: k in ks ==> k in r
  {
    forall i | 0 <= i < |r| ensures r[i] in ks {
      assert r[i] in multiset(r);
    }
    forall k | k in ks ensures k in r {
      assert k in multiset(ks);
    }
    assert |r| == |multiset(r)| == |multiset(ks)|;
  }

  /** Whatever order the key set is copied in, sorting it gives the keys in the visitor's order. */
  lemma SortedKeysOfAnyOrder(ks: set<string>, list: seq<string>)
    requires multiset(list) == multiset(ks)
    ensures Sort(list) == SortedKeys(ks)
  {
    SortIgnoresOrder(list, KeySeq(ks));
  }
}
