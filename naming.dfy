/**
 * The names `download` works with: the keyword table built from its
 * keywords argument, the file extension derived from a sniffed MIME type,
 * and the name each accepted image is written under.
 */
module Naming {
  import Text

  /**
   * The keywords argument of `download`: either one comma-separated string,
   * or a dictionary from keyword to the number of images wanted, given as
   * its items in insertion order.
   */
  datatype Keywords = Phrase(text: string) | Table(items: seq<(string, int)>)

  /** The keywords of a table, in order. */
  function Terms(table: seq<(string, int)>): (r: seq<string>)
    ensures |r| == |table|
    ensures forall k :: 0 <= k < |table| ==> r[k] == table[k].0
  {
    if table == [] then [] else [table[0].0] + Terms(table[1..])
  }

  predicate DistinctTerms(table: seq<(string, int)>)
  {
    forall i, j :: 0 <= i < j < |table| ==> table[i].0 != table[j].0
  }

  /** The first index at which x occurs in s. */
  function FirstIndex(s: seq<string>, x: string): (r: nat)
    requires x in s
    ensures r < |s| && s[r] == x
    ensures forall k :: 0 <= k < r ==> s[k] != x
  {
    if s[0] == x then 0 else 1 + FirstIndex(s[1..], x)
  }

  /**
   * The keys of a dictionary filled with s in order: each element once, at
   * the place where it first occurs; a repeated key keeps its place.
   */
  function Dedup(s: seq<string>): (r: seq<string>)
    ensures forall x :: x in r <==> x in s
    ensures forall i, j :: 0 <= i < j < |r| ==> r[i] != r[j]
    ensures |r| <= |s|
  {
    if s == [] then []
    else
      var d := Dedup(s[..|s| - 1]);
      var x := s[|s| - 1];
      assert forall y :: y in s <==> y in s[..|s| - 1] || y == x;
      if x in d then d else d + [x]
  }

  /** The keys of Dedup(s) come in the order of their first occurrences in s. */
  lemma {:induction false} DedupOrder(s: seq<string>, i: nat, j: nat)
    requires i < j < |Dedup(s)|
    ensures Dedup(s)[i] in s && Dedup(s)[j] in s
    ensures FirstIndex(s, Dedup(s)[i]) < FirstIndex(s, Dedup(s)[j])
  {
    var p := s[..|s| - 1];
    var d := Dedup(p);
    var x := s[|s| - 1];
    var a, b := Dedup(s)[i], Dedup(s)[j];
    FirstIndexPrefix(s, a);
    if j < |d| {
      DedupOrder(p, i, j);
      FirstIndexPrefix(s, b);
    } else {
      assert b == x && x !in d && x !in p;
      assert a in p;
      assert FirstIndex(s, b) == |s| - 1;
    }
  }

  /** An element of s without its last item keeps its first index in s. */
  lemma FirstIndexPrefix(s: seq<string>, x: string)
    requires |s| > 0 && x in s[..|s| - 1]
    ensures FirstIndex(s, x) == FirstIndex(s[..|s| - 1], x)
  {
    var k := FirstIndex(s[..|s| - 1], x);
    assert s[k] == x;
    var f := FirstIndex(s, x);
    assert f <= k;
    assert s[..|s| - 1][f] == x;
  }

  /**
   * The table the download loop walks. A phrase is split on commas, every
   * term stripped of surrounding whitespace, and every term mapped to
   * maxLimit; a term given twice appears once, where it first appeared. A
   * dictionary is used as given.
   */
  function KeywordTable(keywords: Keywords, maxLimit: int): (r: seq<(string, int)>)
    ensures keywords.Table? ==> r == keywords.items
    ensures keywords.Phrase? ==>
      && DistinctTerms(r)
      && (forall k :: 0 <= k < |r| ==> r[k].1 == maxLimit)
      && (forall t :: t in Terms(r) <==> exists item :: item in Text.Split(keywords.text, ',') && Text.Strip(item) == t)
      && 1 <= |r| <= |Text.Split(keywords.text, ',')|
  {
    match keywords
    case Table(items) => items
    case Phrase(text) =>
      var keys := Dedup(Stripped(Text.Split(text, ',')));
      PhraseTerms(Text.Split(text, ','));
      WithLimit(keys, maxLimit)
  }

  /**
   * The terms of a phrase come in the order in which their stripped forms
   * first occur among the comma-separated items: the order the download
   * loop visits them.
   */
  lemma KeywordTableOrder(text: string, maxLimit: int, i: nat, j: nat)
    requires i < j < |KeywordTable(Phrase(text), maxLimit)|
    ensures var r := KeywordTable(Phrase(text), maxLimit); var terms := Stripped(Text.Split(text, ','));
      && r[i].0 in terms && r[j].0 in terms
      && FirstIndex(terms, r[i].0) < FirstIndex(terms, r[j].0)
  {
    var r := KeywordTable(Phrase(text), maxLimit);
    var terms := Stripped(Text.Split(text, ','));
    assert Terms(r) == Dedup(terms);
    assert r[i].0 == Dedup(terms)[i] && r[j].0 == Dedup(terms)[j];
    DedupOrder(terms, i, j);
  }

  /** Each key paired with the same limit, in order. */
  function WithLimit(keys: seq<string>, maxLimit: int): (r: seq<(string, int)>)
    ensures Terms(r) == keys
    ensures forall k :: 0 <= k < |r| ==> r[k].1 == maxLimit
  {
    if keys == [] then []
    else
      var r := [(keys[0], maxLimit)] + WithLimit(keys[1..], maxLimit);
      assert r[1..] == WithLimit(keys[1..], maxLimit);
      r
  }

  /** The keys built from the items of a phrase are exactly the stripped items; there is at least one. */
  lemma {:induction false} PhraseTerms(parts: seq<string>)
    requires |parts| >= 1
    ensures var keys := Dedup(Stripped(parts));
      && 1 <= |keys| <= |parts|
      && forall t :: t in keys <==> exists item :: item in parts && Text.Strip(item) == t
  {
    var terms := Stripped(parts);
    assert terms[0] in Dedup(terms);
    StrippedMembers(parts);
  }

  /** The stripped parts are exactly the strips of the members of parts. */
  lemma StrippedMembers(parts: seq<string>)
    ensures forall t :: t in Stripped(parts) <==> exists item :: item in parts && Text.Strip(item) == t
  {
    var terms := Stripped(parts);
    forall t ensures t in terms <==> exists item :: item in parts && Text.Strip(item) == t {
      if t in terms {
        var k :| 0 <= k < |terms| && terms[k] == t;
        assert parts[k] in parts;
      }
      if exists item :: item in parts && Text.Strip(item) == t {
        var item :| item in parts && Text.Strip(item) == t;
        var k :| 0 <= k < |parts| && parts[k] == item;
        assert terms[k] == t;
      }
    }
  }

  /** Each part with surrounding whitespace stripped, in order. */
  function Stripped(parts: seq<string>): (r: seq<string>)
    ensures |r| == |parts|
    ensures forall k :: 0 <= k < |parts| ==> r[k] == Text.Strip(parts[k])
  {
    if parts == [] then [] else [Text.Strip(parts[0])] + Stripped(parts[1..])
  }

  /**
   * `f'.{file_type.split("/")[-1]}'`: a dot followed by the text after the
   * last slash of the MIME type (all of it when it has no slash).
   */
  function Extension(mime: string): (r: string)
    ensures |r| >= 1 && r[0] == '.'
    ensures '/' !in r[1..]
    ensures |r| - 1 <= |mime| && r[1..] == mime[|mime| - (|r| - 1)..]
    ensures |r| - 1 == |mime| || mime[|mime| - |r|] == '/'
  {
    var sub := Text.LastPart(mime, '/');
    assert ("." + sub)[1..] == sub;
    "." + sub
  }

  /** For a MIME type of the form type/subtype the extension is "." + subtype. */
  lemma ExtensionOfType(kind: string, subtype: string)
    requires '/' !in kind && '/' !in subtype
    ensures Extension(kind + "/" + subtype) == "." + subtype
  {
    var mime := kind + "/" + subtype;
    var r := Extension(mime);
    var sub := r[1..];
    assert |sub| == |subtype|;
    assert sub == mime[|kind| + 1..] == subtype;
    assert r == [r[0]] + sub;
  }

  /** `keyword.replace(" ", "_")`: the directory and file stem of a keyword. */
  function Stem(keyword: string): (r: string)
    ensures |r| == |keyword| && ' ' !in r
  {
    Text.ReplaceSpaces(keyword)
  }

  /**
   * The name an accepted image is written under: the keyword's stem, an
   * underscore, the image number in decimal, and the extension.
   */
  function FileName(keyword: string, number: int, ext: string): string
  {
    Stem(keyword) + "_" + Text.IntToString(number) + ext
  }

  /**
   * For a non-negative number, the name is the keyword with its spaces
   * replaced, an underscore, digits without a leading zero that denote the
   * number, and then the extension.
   */
  lemma FileNameShape(keyword: string, number: nat, ext: string)
    ensures var r := FileName(keyword, number, ext);
      var k := |keyword|;
      var digits := r[k + 1..|r| - |ext|];
      && k + 1 < |r| - |ext| <= |r|
      && r[..k] == Stem(keyword) && ' ' !in r[..k] && r[k] == '_'
      && (forall i :: 0 <= i < |digits| ==> Text.IsDigit(digits[i]))
      && (digits[0] == '0' ==> digits == "0")
      && Text.DigitsValue(digits) == number
      && r[|r| - |ext|..] == ext
  {
    var r := FileName(keyword, number, ext);
    var k := |keyword|;
    var d := Text.Decimal(number);
    assert r == Stem(keyword) + "_" + d + ext;
    assert r[..k] == Stem(keyword);
    assert r[k + 1..|r| - |ext|] == d;
    assert r[|r| - |ext|..] == ext;
  }

  /**
   * For one keyword, two names built from non-negative numbers and
   * extensions that start with a dot are equal only when the numbers and
   * the extensions are: files with different numbers never overwrite each
   * other.
   */
  lemma FileNameInjective(keyword: string, m: nat, n: nat, e1: string, e2: string)
    requires |e1| >= 1 && e1[0] == '.' && |e2| >= 1 && e2[0] == '.'
    requires FileName(keyword, m, e1) == FileName(keyword, n, e2)
    ensures m == n && e1 == e2
  {
    var p := Stem(keyword) + "_";
    var a, b := Text.Decimal(m), Text.Decimal(n);
    FileNameSplit(keyword, m, e1);
    FileNameSplit(keyword, n, e2);
    PrefixCancel(p, a + e1, b + e2);
    DigitsThenDot(a, b, e1, e2);
    Text.DecimalInjective(m, n);
  }

  /** A name from a non-negative number, split after its underscore. */
  lemma FileNameSplit(keyword: string, number: nat, ext: string)
    ensures FileName(keyword, number, ext) == (Stem(keyword) + "_") + (Text.Decimal(number) + ext)
  {
  }

  /** Equal strings with a common prefix agree after it. */
  lemma PrefixCancel(p: string, x: string, y: string)
    requires p + x == p + y
    ensures x == y
  {
    assert x == (p + x)[|p|..];
    assert y == (p + y)[|p|..];
  }

  /** A run of digits followed by a dot can be split back into the digits and the rest. */
  lemma DigitsThenDot(a: string, b: string, e1: string, e2: string)
    requires forall i :: 0 <= i < |a| ==> Text.IsDigit(a[i])
    requires forall i :: 0 <= i < |b| ==> Text.IsDigit(b[i])
    requires |e1| >= 1 && e1[0] == '.' && |e2| >= 1 && e2[0] == '.'
    requires a + e1 == b + e2
    ensures a == b && e1 == e2
  {
    var x, y := a + e1, b + e2;
    assert a == x[..|a|] == y[..|b|] == b;
    assert e1 == x[|a|..] == y[|b|..] == e2;
  }

}
