/** The string operations the program borrows from JavaScript: `trim`,
    `split(sep)[0]`, the default `Array.prototype.sort` order, and
    rendering an integer inside a template literal. */
module Text {

  // ---------------------------------------------------------------------
  // Whitespace and trimming
  // ---------------------------------------------------------------------

  /** The characters `String.prototype.trim` removes: the WhiteSpace and
      LineTerminator productions of ECMA-262 (tab, vertical tab, form feed,
      space, no-break space, byte order mark, the other space separators,
      line feed, carriage return, line and paragraph separators). */
  predicate IsWs(c: char) {
    || c == '\t' || c == '\U{000B}' || c == '\U{000C}' || c == ' '
    || c == '\U{00A0}' || c == '\U{FEFF}' || c == '\U{1680}'
    || ('\U{2000}' <= c <= '\U{200A}')
    || c == '\U{202F}' || c == '\U{205F}' || c == '\U{3000}'
    || c == '\n' || c == '\r' || c == '\U{2028}' || c == '\U{2029}'
  }

  /** Drops leading whitespace: the result is the suffix of `s` that starts
      at the first non-whitespace character. */
  function TrimStart(s: string): (r: string)
    ensures |r| <= |s| && r == s[|s| - |r|..]
    ensures forall k :: 0 <= k < |s| - |r| ==> IsWs(s[k])
    ensures r == [] || !IsWs(r[0])
  {
    if |s| > 0 && IsWs(s[0]) then TrimStart(s[1..]) else s
  }

  /** Drops trailing whitespace: the result is the prefix of `s` that ends
      at the last non-whitespace character. */
  function TrimEnd(s: string): (r: string)
    ensures |r| <= |s| && r == s[..|r|]
    ensures forall k :: |r| <= k < |s| ==> IsWs(s[k])
    ensures r == [] || !IsWs(r[|r| - 1])
  {
    if |s| > 0 && IsWs(s[|s| - 1]) then TrimEnd(s[..|s| - 1]) else s
  }

  /** `r` is what is left of `s` once its leading and trailing whitespace is
      removed: a run of `s` preceded and followed only by whitespace, neither
      starting nor ending with whitespace itself. */
  predicate IsTrimOf(s: string, r: string)
  {
    && (exists i :: 0 <= i <= |s| && TrimmedAt(s, r, i))
    && (r == [] || (!IsWs(r[0]) && !IsWs(r[|r| - 1])))
  }

  /** `r` occurs in `s` at `i` with only whitespace around it. */
  predicate TrimmedAt(s: string, r: string, i: int)
  {
    && 0 <= i <= |s| && r <= s[i..]
    && (forall k :: 0 <= k < i ==> IsWs(s[k]))
    && (forall k :: i + |r| <= k < |s| ==> IsWs(s[k]))
  }

  /** `s.trim()`; every character of the result occurs in `s`. */
  function Trim(s: string): (r: string)
    ensures IsTrimOf(s, r)
    ensures forall k :: 0 <= k < |r| ==> r[k] in s
  {
    TrimFacts(s);
    TrimEnd(TrimStart(s))
  }

  lemma TrimFacts(s: string)
    ensures TrimmedAt(s, TrimEnd(TrimStart(s)), |s| - |TrimStart(s)|)
    ensures forall k :: 0 <= k < |TrimEnd(TrimStart(s))| ==> TrimEnd(TrimStart(s))[k] in s
  {
    var t := TrimStart(s);
    var r := TrimEnd(t);
    var i := |s| - |t|;
    assert t == s[i..];
    forall k | i + |r| <= k < |s| ensures IsWs(s[k]) {
      assert s[k] == t[k - i];
    }
    forall k | 0 <= k < |r| ensures r[k] in s {
      assert r[k] == t[k] == s[i + k];
    }
  }

  // ---------------------------------------------------------------------
  // Splitting
  // ---------------------------------------------------------------------

  /** `s.split(sep)[0]`: the longest prefix of `s` free of `sep`; it is all
      of `s` or stops right before the first `sep`. */
  function FirstSegment(s: string, sep: char): (r: string)
    ensures |r| <= |s| && r == s[..|r|]
    ensures sep !in r
    ensures |r| < |s| ==> s[|r|] == sep
  {
    if |s| == 0 || s[0] == sep then [] else [s[0]] + FirstSegment(s[1..], sep)
  }

  // ---------------------------------------------------------------------
  // The default sort order
  // ---------------------------------------------------------------------

  /** The order `Array.prototype.sort` uses when no comparator is given:
      lexicographic on characters, a proper prefix coming first. */
  predicate Less(a: string, b: string)
  {
    if |a| == 0 then |b| > 0
    else if |b| == 0 then false
    else a[0] < b[0] || (a[0] == b[0] && Less(a[1..], b[1..]))
  }

  lemma {:induction false} LessIrreflexive(a: string)
    ensures !Less(a, a)
  {
    if |a| > 0 {
      LessIrreflexive(a[1..]);
    }
  }

  lemma {:induction false} LessTransitive(a: string, b: string, c: string)
    requires Less(a, b) && Less(b, c)
    ensures Less(a, c)
  {
    if |a| > 0 && a[0] == b[0] && b[0] == c[0] {
      LessTransitive(a[1..], b[1..], c[1..]);
    }
  }

  lemma {:induction false} LessTotal(a: string, b: string)
    requires a != b
    ensures Less(a, b) || Less(b, a)
  {
    if |a| > 0 && |b| > 0 && a[0] == b[0] {
      assert a == [a[0]] + a[1..] && b == [b[0]] + b[1..];
      LessTotal(a[1..], b[1..]);
    }
  }

  lemma LessAsymmetric(a: string, b: string)
    requires Less(a, b)
    ensures !Less(b, a)
  {
    if Less(b, a) {
      LessTransitive(a, b, a);
      LessIrreflexive(a);
    }
  }

  /** The elements of a list, as a set. */
  function Elems<T>(s: seq<T>): (r: set<T>) { set y | y in s }

  lemma NonEmptyElems<T>(s: seq<T>)
    ensures |s| > 0 ==> s[0] in Elems(s)
  {
  }

  /** Every pair of positions is in strictly ascending order: sorted and
      free of duplicates. */
  predicate StrictlySorted(s: seq<string>)
  {
    forall i, j :: 0 <= i < j < |s| ==> Less(s[i], s[j])
  }

  /** Puts `x` into a strictly sorted list, keeping it strictly sorted and
      adding nothing but `x`. */
  function Insert(s: seq<string>, x: string): (r: seq<string>)
    requires StrictlySorted(s)
    ensures StrictlySorted(r)
    ensures Elems(r) == Elems(s) + {x}
  {
    if |s| == 0 then [x]
    else if x == s[0] then s
    else if Less(x, s[0]) then
      assert forall j :: 0 < j < |s| ==> Less(x, s[j]) by {
        forall j | 0 < j < |s| { LessTransitive(x, s[0], s[j]); }
      }
      [x] + s
    else
      LessTotal(x, s[0]);
      var t := Insert(s[1..], x);
      forall y | y in t ensures Less(s[0], y) {
        assert y in Elems(t);
        if y != x {
          assert y in Elems(s[1..]);
          var j :| 0 <= j < |s| - 1 && s[1..][j] == y;
          assert s[j + 1] == y;
        }
      }
      assert Elems(s) == {s[0]} + Elems(s[1..]) by { assert s == [s[0]] + s[1..]; }
      assert Elems([s[0]] + t) == {s[0]} + Elems(t);
      [s[0]] + t
  }

  /** `[...new Set(xs)].sort()`: the distinct elements of `xs` in ascending
      order. */
  function SortedUnique(xs: seq<string>): (r: seq<string>)
    ensures StrictlySorted(r)
    ensures Elems(r) == Elems(xs)
  {
    if |xs| == 0 then []
    else
      var r := Insert(SortedUnique(xs[..|xs| - 1]), xs[|xs| - 1]);
      assert xs == xs[..|xs| - 1] + [xs[|xs| - 1]];
      r
  }

  /** A strictly sorted list is determined by its elements, so the order in
      which duplicates are dropped and elements inserted does not matter. */
  lemma {:induction false} StrictlySortedUnique(a: seq<string>, b: seq<string>)
    requires StrictlySorted(a) && StrictlySorted(b)
    requires Elems(a) == Elems(b)
    ensures a == b
  {
    NonEmptyElems(a);
    NonEmptyElems(b);
    if |a| == 0 || |b| == 0 {
    } else {
      assert a[0] in Elems(b);
      assert b[0] in Elems(a);
      if a[0] != b[0] {
        var i :| 0 <= i < |b| && b[i] == a[0];
        var j :| 0 <= j < |a| && a[j] == b[0];
        assert Less(b[0], a[0]);
        assert Less(a[0], b[0]);
        LessAsymmetric(a[0], b[0]);
      }
      forall y | y in a[1..] ensures y in b[1..] {
        var k :| 1 <= k < |a| && a[k] == y;
        assert y in Elems(a);
        var m :| 0 <= m < |b| && b[m] == y;
        if m == 0 { LessIrreflexive(a[0]); }
      }
      forall y | y in b[1..] ensures y in a[1..] {
        var k :| 1 <= k < |b| && b[k] == y;
        assert y in Elems(b);
        var m :| 0 <= m < |a| && a[m] == y;
        if m == 0 { LessIrreflexive(b[0]); }
      }
      StrictlySortedUnique(a[1..], b[1..]);
      assert a == [a[0]] + a[1..] && b == [b[0]] + b[1..];
    }
  }

  // ---------------------------------------------------------------------
  // Decimal rendering
  // ---------------------------------------------------------------------

  predicate IsDigit(c: char) { '0' as int <= c as int <= '9' as int }

  function DigitChar(d: nat): (c: char)
    requires d < 10
    ensures IsDigit(c)
    ensures c as int - '0' as int == d
  {
    ('0' as int + d) as char
  }

  /** An integer in a template literal, for non-negative values: at least one
      digit, no leading zero. */
  function NatToDecimal(n: nat): (r: string)
    ensures |r| >= 1
    ensures forall k :: 0 <= k < |r| ==> IsDigit(r[k])
    ensures |r| > 1 ==> r[0] != '0'
  {
    if n < 10 then [DigitChar(n)] else NatToDecimal(n / 10) + [DigitChar(n % 10)]
  }

  /** Reads a string of digits back as the number it denotes. */
  function DecimalValue(s: string): (n: nat)
    requires forall k :: 0 <= k < |s| ==> IsDigit(s[k])
  {
    if |s| == 0 then 0
    else
      assert IsDigit(s[|s| - 1]);
      DecimalValue(s[..|s| - 1]) * 10 + (s[|s| - 1] as int - '0' as int)
  }

  /** Rendering loses nothing: the digits read back as the number. */
  lemma {:induction false} DecimalRoundTrip(n: nat)
    ensures DecimalValue(NatToDecimal(n)) == n
  {
    if n >= 10 {
      var p := NatToDecimal(n / 10);
      var r := p + [DigitChar(n % 10)];
      assert r[..|r| - 1] == p;
      DecimalRoundTrip(n / 10);
    }
  }

  /** An integer in a template literal: a minus sign exactly when the value
      is negative, then the canonical digits of its magnitude, which read
      back as that magnitude. */
  function IntToDecimal(i: int): (r: string)
    ensures |r| >= 1 && (r[0] == '-' <==> i < 0)
    ensures var sign := if i < 0 then 1 else 0;
      && |r| > sign
      && (forall k :: sign <= k < |r| ==> IsDigit(r[k]))
      && (|r| > sign + 1 ==> r[sign] != '0')
      && DecimalValue(r[sign..]) == (if i < 0 then -i else i)
  {
    DecimalRoundTrip(if i < 0 then -i else i);
    if i < 0 then
      var r := "-" + NatToDecimal(-i);
      assert r[1..] == NatToDecimal(-i);
      r
    else
      var r := NatToDecimal(i);
      assert r[0..] == r;
      r
  }
}
