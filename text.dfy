/**
 * The string operations of Python that the downloader relies on:
 * str.strip(), str.split(sep), str.replace(" ", "_"), the `in` substring
 * test and str() of an integer.
 */
module Text {

  /** The characters Python's str.isspace() accepts, which str.strip() removes. */
  predicate IsSpace(c: char)
  {
    var n := c as int;
    (9 <= n <= 13) || (28 <= n <= 32) || n == 0x85 || n == 0xA0 || n == 0x1680
    || (0x2000 <= n <= 0x200A) || n == 0x2028 || n == 0x2029 || n == 0x202F
    || n == 0x205F || n == 0x3000
  }

  /** Every character of s is whitespace. */
  predicate AllSpace(s: string)
  {
    forall i :: 0 <= i < |s| ==> IsSpace(s[i])
  }

  /** The number of whitespace characters s starts with. */
  function LeadingSpace(s: string): (n: nat)
    ensures n <= |s| && AllSpace(s[..n])
    ensures n == |s| || !IsSpace(s[n])
  {
    if |s| > 0 && IsSpace(s[0]) then
      1 + LeadingSpace(s[1..])
    else
      0
  }

  /** The number of whitespace characters s ends with. */
  function TrailingSpace(s: string): (n: nat)
    ensures n <= |s| && AllSpace(s[|s| - n..])
    ensures n == |s| || !IsSpace(s[|s| - n - 1])
  {
    if |s| > 0 && IsSpace(s[|s| - 1]) then
      1 + TrailingSpace(s[..|s| - 1])
    else
      0
  }

  /**
   * str.strip(): s with its leading and trailing whitespace removed. The
   * result is the slice of s after its leading whitespace, everything cut
   * off on either side is whitespace, and the result neither starts nor
   * ends with whitespace.
   */
  function Strip(s: string): (r: string)
    ensures LeadingSpace(s) + |r| <= |s|
    ensures r == s[LeadingSpace(s)..LeadingSpace(s) + |r|]
    ensures AllSpace(s[..LeadingSpace(s)]) && AllSpace(s[LeadingSpace(s) + |r|..])
    ensures r == [] || (!IsSpace(r[0]) && !IsSpace(r[|r| - 1]))
  {
    var i := LeadingSpace(s);
    var rest := s[i..];
    var j := i + |rest| - TrailingSpace(rest);
    assert s[j..] == rest[|rest| - TrailingSpace(rest)..];
    s[i..j]
  }

  /** Joins parts with sep between consecutive parts, as sep.join(parts). */
  function Join(parts: seq<string>, sep: char): string
    requires |parts| >= 1
  {
    if |parts| == 1 then parts[0] else parts[0] + [sep] + Join(parts[1..], sep)
  }

  /** The parts of str.split(sep), computed from the front of the string. */
  function Parts(s: string, sep: char): (r: seq<string>)
    ensures |r| >= 1
  {
    if s == [] then [[]]
    else
      var rest := Parts(s[1..], sep);
      if s[0] == sep then [[]] + rest
      else [[s[0]] + rest[0]] + rest[1..]
  }

  /**
   * str.split(sep) for a one-character separator: one more part than there
   * are separators, no part contains the separator, and joining the parts
   * with the separator gives back the string.
   */
  function Split(s: string, sep: char): (r: seq<string>)
    ensures |r| == multiset(s)[sep] + 1
    ensures forall k :: 0 <= k < |r| ==> sep !in r[k]
    ensures Join(r, sep) == s
  {
    PartsCount(s, sep);
    PartsWithout(s, sep);
    PartsJoin(s, sep);
    Parts(s, sep)
  }

  lemma {:induction false} PartsCount(s: string, sep: char)
    ensures |Parts(s, sep)| == multiset(s)[sep] + 1
  {
    if s != [] {
      PartsCount(s[1..], sep);
      assert s == [s[0]] + s[1..];
      assert multiset(s) == multiset{s[0]} + multiset(s[1..]);
    }
  }

  lemma {:induction false} PartsWithout(s: string, sep: char)
    ensures forall k :: 0 <= k < |Parts(s, sep)| ==> sep !in Parts(s, sep)[k]
  {
    if s != [] {
      PartsWithout(s[1..], sep);
    }
  }

  lemma {:induction false} PartsJoin(s: string, sep: char)
    ensures Join(Parts(s, sep), sep) == s
  {
    if s != [] {
      var rest := Parts(s[1..], sep);
      PartsJoin(s[1..], sep);
      assert s == [s[0]] + s[1..];
      if s[0] != sep && |rest| > 1 {
        assert Join(rest, sep) == rest[0] + [sep] + Join(rest[1..], sep);
        assert ([s[0]] + rest[0] + [sep]) + Join(rest[1..], sep) == [s[0]] + Join(rest, sep);
      }
    }
  }

  /** The other half of the round trip: splitting joined parts gives the parts back. */
  lemma {:induction false} SplitJoin(parts: seq<string>, sep: char)
    requires |parts| >= 1
    requires forall k :: 0 <= k < |parts| ==> sep !in parts[k]
    ensures Split(Join(parts, sep), sep) == parts
  {
    if |parts| == 1 {
      SplitWithout(parts[0], sep);
    } else {
      SplitJoin(parts[1..], sep);
      SplitAfter(parts[0], Join(parts[1..], sep), sep);
      assert [parts[0]] + parts[1..] == parts;
    }
  }

  lemma {:induction false} SplitWithout(p: string, sep: char)
    requires sep !in p
    ensures Parts(p, sep) == [p]
  {
    if p != [] {
      SplitWithout(p[1..], sep);
      assert p == [p[0]] + p[1..];
    }
  }

  lemma {:induction false} SplitAfter(p: string, t: string, sep: char)
    requires sep !in p
    ensures Parts(p + [sep] + t, sep) == [p] + Parts(t, sep)
  {
    var s := p + [sep] + t;
    if p == [] {
      assert s[0] == sep && s[1..] == t;
    } else {
      assert s[0] == p[0] && p[0] != sep;
      assert s[1..] == p[1..] + [sep] + t;
      SplitAfter(p[1..], t, sep);
      var rest := Parts(s[1..], sep);
      assert rest == [p[1..]] + Parts(t, sep);
      assert [s[0]] + rest[0] == p;
    }
  }

  /** s.split(sep)[-1]: the text after the last separator, or all of s when it has none. */
  function LastPart(s: string, sep: char): (r: string)
    ensures |r| <= |s| && r == s[|s| - |r|..]
    ensures sep !in r
    ensures |r| == |s| || s[|s| - |r| - 1] == sep
  {
    var parts := Parts(s, sep);
    PartsWithout(s, sep);
    LastPartSuffix(s, sep);
    parts[|parts| - 1]
  }

  lemma {:induction false} LastPartSuffix(s: string, sep: char)
    ensures var parts := Parts(s, sep); var r := parts[|parts| - 1];
      |r| <= |s| && r == s[|s| - |r|..] && (|r| == |s| || s[|s| - |r| - 1] == sep)
  {
    if s != [] {
      var t := s[1..];
      LastPartSuffix(t, sep);
      var rest := Parts(t, sep);
      var r := rest[|rest| - 1];
      assert t[|t| - |r|..] == s[|s| - |r|..];
      LastOfCons(s, sep);
      if |rest| > 1 {
        LastShort(t, sep);
      }
    }
  }

  /** When s contains the separator, the last part of s.split(sep) is shorter than s. */
  lemma LastShort(s: string, sep: char)
    requires |Parts(s, sep)| > 1
    requires var parts := Parts(s, sep); var r := parts[|parts| - 1];
      |r| <= |s| && r == s[|s| - |r|..]
    ensures var parts := Parts(s, sep); |parts[|parts| - 1]| < |s|
  {
    var parts := Parts(s, sep);
    PartsCount(s, sep);
    PartsWithout(s, sep);
    assert sep in multiset(s);
    assert sep !in parts[|parts| - 1];
  }

  /** How the last part of s.split(sep) relates to the last part of s[1:].split(sep). */
  lemma {:induction false} LastOfCons(s: string, sep: char)
    requires s != []
    ensures var parts := Parts(s, sep); var rest := Parts(s[1..], sep);
      parts[|parts| - 1] == if s[0] != sep && |rest| == 1 then s else rest[|rest| - 1]
  {
    var rest := Parts(s[1..], sep);
    var parts := Parts(s, sep);
    if s[0] == sep {
      assert parts == [[]] + rest;
    } else {
      assert parts == [[s[0]] + rest[0]] + rest[1..];
      if |rest| == 1 {
        PartsJoin(s[1..], sep);
        assert Join(rest, sep) == rest[0];
        assert [s[0]] + s[1..] == s;
      } else {
        assert parts[|parts| - 1] == rest[1..][|rest| - 2];
      }
    }
  }

  /** Python's `sub in s` for strings. */
  predicate Contains(s: string, sub: string)
  {
    exists k | 0 <= k <= |s| :: OccursAt(s, sub, k)
  }

  /** sub occurs in s starting at index k. */
  predicate OccursAt(s: string, sub: string, k: int)
  {
    0 <= k && k + |sub| <= |s| && s[k..k + |sub|] == sub
  }

  /** str.replace(" ", "_"): every space becomes an underscore, nothing else changes. */
  function ReplaceSpaces(s: string): (r: string)
    ensures |r| == |s|
    ensures forall i :: 0 <= i < |s| ==> r[i] == (if s[i] == ' ' then '_' else s[i])
    ensures ' ' !in r
  {
    if s == [] then [] else [if s[0] == ' ' then '_' else s[0]] + ReplaceSpaces(s[1..])
  }

  predicate IsDigit(c: char)
  {
    '0' <= c <= '9'
  }

  /** The number a string of decimal digits denotes. */
  function DigitsValue(s: string): nat
    requires forall i :: 0 <= i < |s| ==> IsDigit(s[i])
  {
    if s == [] then 0
    else
      assert IsDigit(s[|s| - 1]);
      DigitsValue(s[..|s| - 1]) * 10 + (s[|s| - 1] as int - '0' as int)
  }

  /**
   * str(n) for n >= 0: a nonempty string of decimal digits without a leading
   * zero (other than "0" itself) that denotes n.
   */
  function Decimal(n: nat): (r: string)
    ensures |r| >= 1 && forall i :: 0 <= i < |r| ==> IsDigit(r[i])
    ensures r[0] == '0' ==> r == "0"
    ensures DigitsValue(r) == n
  {
    if n < 10 then [('0' as int + n) as char]
    else
      var r := Decimal(n / 10) + [('0' as int + n % 10) as char];
      assert r[..|r| - 1] == Decimal(n / 10);
      r
  }

  /** Equal decimal spellings denote equal numbers. */
  lemma DecimalInjective(a: nat, b: nat)
    requires Decimal(a) == Decimal(b)
    ensures a == b
  {
    assert DigitsValue(Decimal(a)) == a;
  }

  /** str(n) for any Python int: a minus sign for negative n, then the decimal spelling of its magnitude. */
  function IntToString(n: int): (r: string)
    ensures n >= 0 ==> r == Decimal(n)
    ensures n < 0 ==> r == "-" + Decimal(-n)
  {
    if n < 0 then "-" + Decimal(-n) else Decimal(n)
  }

  /**
   * What str(n) spells: a minus sign exactly when n is negative, followed
   * by digits without a leading zero (other than "0" itself) that denote
   * the magnitude of n.
   */
  lemma IntToStringValue(n: int)
    ensures var r := IntToString(n);
      && |r| >= 1 && (r[0] == '-' <==> n < 0)
      && var digits := if n < 0 then r[1..] else r;
      && |digits| >= 1 && (forall i :: 0 <= i < |digits| ==> IsDigit(digits[i]))
      && (digits[0] == '0' ==> digits == "0")
      && DigitsValue(digits) == if n < 0 then -n else n
  {
    var r := IntToString(n);
    if n < 0 {
      assert r[1..] == Decimal(-n);
    }
  }
}
