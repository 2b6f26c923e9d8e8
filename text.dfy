/**
  String helpers the SQL generators are built from: ASCII upper-casing, substring
  search, joining with a separator (and its inverse for one-character separators),
  character counting, and decimal rendering of natural numbers with its parser.
*/
module Text {

  // ---------------------------------------------------------------------------
  // Upper-casing
  // ---------------------------------------------------------------------------

  predicate IsLower(c: char) {
    'a' <= c <= 'z'
  }

  /** ASCII upper-casing of one character; every other character is unchanged. */
  function UpperChar(c: char): (r: char)
    ensures !IsLower(r)
    ensures IsLower(c) ==> r as int == c as int - 32
    ensures !IsLower(c) ==> r == c
  {
    if IsLower(c) then (c as int - 32) as char else c
  }

  /** ASCII upper-casing of a string, character by character. */
  function Upper(s: string): string {
    seq(|s|, i requires 0 <= i < |s| => UpperChar(s[i]))
  }

  /** A character that is neither in s nor the lower-case form of c is not in Upper(s). */
  lemma UpperAvoids(s: string, c: char)
    requires !IsLower(c) && c !in s
    requires 'A' <= c <= 'Z' ==> (c as int + 32) as char !in s
    ensures c !in Upper(s)
  {
    forall i | 0 <= i < |s|
      ensures Upper(s)[i] != c
    {
      if IsLower(s[i]) {
        assert (s[i] as int - 32 + 32) as char == s[i];
      }
    }
  }

  // ---------------------------------------------------------------------------
  // Substrings
  // ---------------------------------------------------------------------------

  predicate StartsWith(s: string, prefix: string) {
    |prefix| <= |s| && s[..|prefix|] == prefix
  }

  /** sub occurs in s starting at offset i. */
  predicate OccursAt(s: string, sub: string, i: int) {
    0 <= i && i + |sub| <= |s| && s[i..i + |sub|] == sub
  }

  /** A string that differs from prefix at one of its positions does not start with it. */
  lemma NotStartsWith(s: string, prefix: string, k: nat)
    requires k < |prefix| && k < |s| && s[k] != prefix[k]
    ensures !StartsWith(s, prefix)
  {
    if |prefix| <= |s| {
      assert s[..|prefix|][k] == s[k];
    }
  }

  /** Python's `sub in s`: sub occurs in s at some offset. */
  predicate Contains(s: string, sub: string) {
    exists i :: 0 <= i <= |s| - |sub| && OccursAt(s, sub, i)
  }

  /** A word with a character that does not occur in s does not occur in s. */
  lemma NotContainsMissingChar(s: string, sub: string, j: nat)
    requires j < |sub| && sub[j] !in s
    ensures !Contains(s, sub)
  {
    forall i | 0 <= i && i + |sub| <= |s|
      ensures !OccursAt(s, sub, i)
    {
      assert s[i..i + |sub|][j] == s[i + j];
    }
  }

  lemma ContainsItself(s: string)
    ensures Contains(s, s)
  {
    assert OccursAt(s, s, 0);
  }

  // ---------------------------------------------------------------------------
  // Joining and splitting
  // ---------------------------------------------------------------------------

  /** Python's `sep.join(xs)`. */
  function Join(sep: string, xs: seq<string>): string
    decreases |xs|
  {
    if |xs| == 0 then ""
    else if |xs| == 1 then xs[0]
    else xs[0] + sep + Join(sep, xs[1..])
  }

  /** Joining two parts puts the separator between them. */
  lemma JoinTwo(sep: string, a: string, b: string)
    ensures Join(sep, [a, b]) == a + sep + b
  {
    assert [a, b][1..] == [b];
  }

  /** Joining three parts puts the separator between each neighbouring pair. */
  lemma JoinThree(sep: string, a: string, b: string, c: string)
    ensures Join(sep, [a, b, c]) == a + sep + b + sep + c
  {
    assert [a, b, c][1..] == [b, c];
    assert [b, c][1..] == [c];
    assert Join(sep, [b, c]) == b + sep + c;
    assert a + sep + (b + sep + c) == a + sep + b + sep + c;
  }

  /** A character that is in neither the separator nor any part is not in the joined string. */
  lemma {:induction false} JoinAvoids(sep: string, xs: seq<string>, c: char)
    requires c !in sep
    requires forall k :: 0 <= k < |xs| ==> c !in xs[k]
    ensures c !in Join(sep, xs)
    decreases |xs|
  {
    if |xs| > 1 {
      JoinAvoids(sep, xs[1..], c);
    }
  }

  /** Python's `s.split(c)` for a one-character separator: at least one part, never containing c. */
  function SplitOn(s: string, c: char): (r: seq<string>)
    ensures |r| >= 1
    ensures forall k :: 0 <= k < |r| ==> c !in r[k]
    decreases |s|
  {
    if |s| == 0 then [""]
    else
      var rest := SplitOn(s[1..], c);
      if s[0] == c then [""] + rest
      else [[s[0]] + rest[0]] + rest[1..]
  }

  lemma {:induction false} SplitOnNoSeparator(s: string, c: char)
    requires c !in s
    ensures SplitOn(s, c) == [s]
    decreases |s|
  {
    if |s| > 0 {
      SplitOnNoSeparator(s[1..], c);
      assert [s[0]] + s[1..] == s;
    }
  }

  lemma {:induction false} SplitOnAfterPart(x: string, c: char, y: string)
    requires c !in x
    ensures SplitOn(x + [c] + y, c) == [x] + SplitOn(y, c)
    decreases |x|
  {
    if |x| == 0 {
      assert x + [c] + y == [c] + y;
      assert ([c] + y)[1..] == y;
    } else {
      assert (x + [c] + y)[1..] == x[1..] + [c] + y;
      SplitOnAfterPart(x[1..], c, y);
      assert [x[0]] + x[1..] == x;
    }
  }

  /**
    Splitting undoes joining: when no part contains the one-character separator, the
    parts are recovered exactly and in order.
  */
  lemma {:induction false} SplitJoin(xs: seq<string>, c: char)
    requires |xs| >= 1
    requires forall k :: 0 <= k < |xs| ==> c !in xs[k]
    ensures SplitOn(Join([c], xs), c) == xs
    decreases |xs|
  {
    if |xs| == 1 {
      SplitOnNoSeparator(xs[0], c);
    } else {
      SplitJoin(xs[1..], c);
      SplitOnAfterPart(xs[0], c, Join([c], xs[1..]));
      assert [xs[0]] + xs[1..] == xs;
    }
  }

  // ---------------------------------------------------------------------------
  // Counting characters
  // ---------------------------------------------------------------------------

  function CountChar(s: string, c: char): nat
    decreases |s|
  {
    if s == [] then 0 else (if s[0] == c then 1 else 0) + CountChar(s[1..], c)
  }

  lemma {:induction false} CountCharConcat(a: string, b: string, c: char)
    ensures CountChar(a + b, c) == CountChar(a, c) + CountChar(b, c)
    decreases |a|
  {
    if a != [] {
      assert (a + b)[1..] == a[1..] + b;
      CountCharConcat(a[1..], b, c);
    } else {
      assert a + b == b;
    }
  }

  lemma {:induction false} CountCharAbsent(s: string, c: char)
    requires c !in s
    ensures CountChar(s, c) == 0
    decreases |s|
  {
    if s != [] {
      CountCharAbsent(s[1..], c);
    }
  }

  /**
    When no part contains c, the occurrences of c in the joined string are exactly
    those of the |xs| - 1 separators.
  */
  lemma {:induction false} JoinCountChar(sep: string, xs: seq<string>, c: char)
    requires |xs| >= 1
    requires forall k :: 0 <= k < |xs| ==> c !in xs[k]
    ensures CountChar(Join(sep, xs), c) == (|xs| - 1) * CountChar(sep, c)
    decreases |xs|
  {
    CountCharAbsent(xs[0], c);
    if |xs| > 1 {
      JoinCountChar(sep, xs[1..], c);
      CountCharConcat(xs[0], sep, c);
      CountCharConcat(xs[0] + sep, Join(sep, xs[1..]), c);
    }
  }

  // ---------------------------------------------------------------------------
  // Subsequences and duplicates
  // ---------------------------------------------------------------------------

  /** xs is ys with some elements deleted, the rest kept in order. */
  predicate IsSubsequence<T(==)>(xs: seq<T>, ys: seq<T>)
    decreases |ys|
  {
    if xs == [] then true
    else if ys == [] then false
    else (xs[0] == ys[0] && IsSubsequence(xs[1..], ys[1..])) || IsSubsequence(xs, ys[1..])
  }

  predicate NoDuplicates<T(==)>(xs: seq<T>) {
    forall i, j :: 0 <= i < j < |xs| ==> xs[i] != xs[j]
  }

  // ---------------------------------------------------------------------------
  // Decimal numerals
  // ---------------------------------------------------------------------------

  predicate IsDigit(c: char) {
    '0' <= c <= '9'
  }

  predicate AllDigits(s: string) {
    forall i :: 0 <= i < |s| ==> IsDigit(s[i])
  }

  function DigitChar(d: nat): (c: char)
    requires d < 10
    ensures IsDigit(c)
  {
    ('0' as int + d) as char
  }

  /** Python's `str(n)` for a natural number: its decimal digits, without leading zeros. */
  function NatToString(n: nat): (r: string)
    ensures |r| >= 1 && AllDigits(r)
    ensures |r| > 1 ==> r[0] != '0'
    decreases n
  {
    if n < 10 then [DigitChar(n)] else NatToString(n / 10) + [DigitChar(n % 10)]
  }

  /** The value of a string of decimal digits. */
  function ParseNat(s: string): nat
    requires AllDigits(s)
    decreases |s|
  {
    if |s| == 0 then 0 else 10 * ParseNat(s[..|s| - 1]) + (s[|s| - 1] as int - '0' as int)
  }

  /** Reading back a rendered number gives the number: rendering is injective. */
  lemma {:induction false} ParseNatToString(n: nat)
    ensures ParseNat(NatToString(n)) == n
    decreases n
  {
    if n >= 10 {
      var s := NatToString(n);
      assert s[..|s| - 1] == NatToString(n / 10);
      ParseNatToString(n / 10);
    }
  }

  /** Length of the run of decimal digits at the start of s. */
  function DigitRun(s: string): (n: nat)
    ensures n <= |s| && AllDigits(s[..n])
    ensures n < |s| ==> !IsDigit(s[n])
    decreases |s|
  {
    if |s| > 0 && IsDigit(s[0]) then 1 + DigitRun(s[1..]) else 0
  }

  lemma {:induction false} DigitRunOf(d: string, t: string)
    requires AllDigits(d)
    requires t == [] || !IsDigit(t[0])
    ensures DigitRun(d + t) == |d|
    decreases |d|
  {
    if |d| > 0 {
      assert (d + t)[1..] == d[1..] + t;
      DigitRunOf(d[1..], t);
    } else {
      assert d + t == t;
    }
  }
}
