/** The few JavaScript string operations the normalizer relies on, stated over
    `string` (a sequence of Unicode scalar values): `String.prototype.trim`,
    `startsWith`, `endsWith`, and a `split('\n')` used to describe the layout
    of the rendered output line by line. */
module JsString {

  /** The characters `trim` removes: the WhiteSpace and LineTerminator code
      points of ECMAScript (TAB, VT, FF, SP, NBSP, ZWNBSP, the space
      separators of Unicode category Zs, LF, CR, LS and PS). */
  const Whitespace: set<char> := {
    '\t', '\n', '\U{B}', '\U{C}', '\r', ' ', '\U{A0}', '\U{1680}',
    '\U{2000}', '\U{2001}', '\U{2002}', '\U{2003}', '\U{2004}', '\U{2005}',
    '\U{2006}', '\U{2007}', '\U{2008}', '\U{2009}', '\U{200A}',
    '\U{2028}', '\U{2029}', '\U{202F}', '\U{205F}', '\U{3000}', '\U{FEFF}'
  }

  predicate IsWhitespace(c: char) {
    c in Whitespace
  }

  predicate AllWhitespace(s: string) {
    forall k :: 0 <= k < |s| ==> IsWhitespace(s[k])
  }

  /** No whitespace at either end (vacuously true of the empty string). */
  predicate Trimmed(s: string) {
    s == [] || (!IsWhitespace(s[0]) && !IsWhitespace(s[|s| - 1]))
  }

  /** Length of the longest all-whitespace prefix. */
  function LeadingWhitespace(s: string): (n: nat)
    ensures n <= |s|
    ensures AllWhitespace(s[..n])
    ensures n < |s| ==> !IsWhitespace(s[n])
  {
    if s == [] || !IsWhitespace(s[0]) then 0
    else
      var m := LeadingWhitespace(s[1..]);
      assert s[..m + 1] == [s[0]] + s[1..][..m];
      m + 1
  }

  /** Length of the longest all-whitespace suffix. */
  function TrailingWhitespace(s: string): (n: nat)
    ensures n <= |s|
    ensures AllWhitespace(s[|s| - n..])
    ensures n < |s| ==> !IsWhitespace(s[|s| - 1 - n])
  {
    if s == [] || !IsWhitespace(s[|s| - 1]) then 0
    else
      var init := s[..|s| - 1];
      var m := TrailingWhitespace(init);
      assert s[|s| - (m + 1)..] == init[|init| - m..] + [s[|s| - 1]];
      m + 1
  }

  /** `s.trim()`: the leading and the trailing whitespace removed. The result
      is the piece of `s` that starts right after its leading whitespace,
      everything after it is whitespace, and it has no whitespace at its
      ends; TrimOfPadded shows these facts determine it. */
  function Trim(s: string): (r: string)
    ensures |r| <= |s|
    ensures LeadingWhitespace(s) + |r| <= |s|
    ensures r == s[LeadingWhitespace(s)..LeadingWhitespace(s) + |r|]
    ensures AllWhitespace(s[LeadingWhitespace(s) + |r|..])
    ensures Trimmed(r)
  {
    var lead := LeadingWhitespace(s);
    var t := s[lead..];
    var n := TrailingWhitespace(t);
    assert t[|t| - n..] == s[|s| - n..];
    assert n < |t| ==> t[|t| - 1 - n] == s[|s| - 1 - n];
    TrimmedSlice(s, lead, n);
    s[lead..|s| - n]
  }

  /** The piece between a prefix that ends before a non-whitespace character
      and an all-whitespace suffix that starts after one has no whitespace at
      its ends. */
  lemma TrimmedSlice(s: string, lead: nat, n: nat)
    requires lead + n <= |s|
    requires lead < |s| ==> !IsWhitespace(s[lead])
    requires AllWhitespace(s[|s| - n..])
    requires lead + n < |s| ==> !IsWhitespace(s[|s| - 1 - n])
    ensures AllWhitespace(s[|s| - n..]) && Trimmed(s[lead..|s| - n])
  {
    var r := s[lead..|s| - n];
    if r != [] {
      assert r[0] == s[lead] && r[|r| - 1] == s[|s| - 1 - n];
    }
  }

  lemma {:induction false} LeadingOfPadded(a: string, m: string)
    requires AllWhitespace(a)
    requires m == [] || !IsWhitespace(m[0])
    ensures LeadingWhitespace(a + m) == |a|
  {
    if a == [] {
      assert a + m == m;
    } else {
      assert (a + m)[1..] == a[1..] + m;
      LeadingOfPadded(a[1..], m);
    }
  }

  lemma {:induction false} TrailingOfPadded(m: string, b: string)
    requires AllWhitespace(b)
    requires m == [] || !IsWhitespace(m[|m| - 1])
    ensures TrailingWhitespace(m + b) == |b|
  {
    if b == [] {
      assert m + b == m;
    } else {
      var b' := b[..|b| - 1];
      assert (m + b)[..|m + b| - 1] == m + b';
      TrailingOfPadded(m, b');
    }
  }

  /** Reference characterisation of `trim`: padding a trimmed string with
      whitespace on both sides and trimming gives the string back. */
  lemma TrimOfPadded(a: string, m: string, b: string)
    requires AllWhitespace(a) && AllWhitespace(b) && Trimmed(m)
    ensures Trim(a + m + b) == m
  {
    var s := a + m + b;
    if m == [] {
      assert s == a + b;
      assert AllWhitespace(s);
      AllWhitespaceTrimsToEmpty(s);
    } else {
      assert s == a + (m + b);
      assert (m + b)[0] == m[0];
      LeadingOfPadded(a, m + b);
      var t := s[|a|..];
      assert t == m + b;
      TrailingOfPadded(m, b);
    }
  }

  lemma AllWhitespaceTrimsToEmpty(s: string)
    requires AllWhitespace(s)
    ensures Trim(s) == []
  {
  }

  lemma TrimIdempotent(s: string)
    ensures Trim(Trim(s)) == Trim(s)
  {
    var r := Trim(s);
    assert r == [] + r + [];
    TrimOfPadded([], r, []);
  }

  /** `s.startsWith(p)` */
  predicate StartsWith(s: string, p: string) {
    |p| <= |s| && s[..|p|] == p
  }

  /** `s.endsWith(x)` */
  predicate EndsWith(s: string, x: string) {
    |x| <= |s| && s[|s| - |x|..] == x
  }

  /** `s.split('\n')`: the pieces between line feeds, so a string ending in a
      line feed has an empty last piece. */
  function SplitLines(s: string): (r: seq<string>)
    ensures |r| >= 1
  {
    if s == [] then [""]
    else
      var rest := SplitLines(s[1..]);
      if s[0] == '\n' then [""] + rest
      else [[s[0]] + rest[0]] + rest[1..]
  }

  lemma {:induction false} SplitLinesAfter(a: string, b: string)
    requires '\n' !in a
    ensures SplitLines(a + "\n" + b) == [a] + SplitLines(b)
  {
    if a == [] {
      assert a + "\n" + b == "\n" + b;
      assert ("\n" + b)[1..] == b;
    } else {
      assert (a + "\n" + b)[1..] == a[1..] + "\n" + b;
      SplitLinesAfter(a[1..], b);
      assert [a[0]] + a[1..] == a;
    }
  }
}
