/** Python's notion of whitespace, `str.strip()`, and the `$` anchor. */
module Text {

  /** `str.isspace()` for one code point; the regular-expression class `\s`
      of a `str` pattern and `str.strip()` without argument use the same set. */
  predicate IsSpace(c: char) {
    || ('\t' <= c <= '\r')
    || ('\U{1C}' <= c <= '\U{1F}')
    || c == ' '
    || c == '\U{85}'
    || c == '\U{A0}'
    || c == '\U{1680}'
    || ('\U{2000}' <= c <= '\U{200A}')
    || c == '\U{2028}'
    || c == '\U{2029}'
    || c == '\U{202F}'
    || c == '\U{205F}'
    || c == '\U{3000}'
  }

  /** The code points `str.isspace()` accepts, listed one by one. */
  const Whitespace: set<char> := {
    '\t', '\n', '\U{0B}', '\U{0C}', '\r', '\U{1C}', '\U{1D}', '\U{1E}', '\U{1F}', ' ',
    '\U{85}', '\U{A0}', '\U{1680}',
    '\U{2000}', '\U{2001}', '\U{2002}', '\U{2003}', '\U{2004}', '\U{2005}',
    '\U{2006}', '\U{2007}', '\U{2008}', '\U{2009}', '\U{200A}',
    '\U{2028}', '\U{2029}', '\U{202F}', '\U{205F}', '\U{3000}'}

  /** The ranges of `IsSpace` hold exactly the listed code points: 29 of them,
      among them tab, newline, carriage return, space, no-break space and the
      ideographic space, and nothing else. */
  lemma IsSpaceExactly(c: char)
    ensures IsSpace(c) <==> c in Whitespace
  {
  }

  predicate AllSpace(s: string) {
    forall i :: 0 <= i < |s| ==> IsSpace(s[i])
  }

  /** What `$` accepts after a match without MULTILINE: the end of the text,
      or one final newline. */
  predicate AtEnd(rest: string) {
    rest == [] || rest == "\n"
  }

  /** `s` does not contain `ch`. */
  predicate Lacks(s: string, ch: char) {
    forall i :: 0 <= i < |s| ==> s[i] != ch
  }

  predicate NoNewline(s: string) {
    Lacks(s, '\n')
  }

  /** True when `s` has no whitespace at either end. */
  predicate Trimmed(s: string) {
    s == [] || (!IsSpace(s[0]) && !IsSpace(s[|s| - 1]))
  }

  /** The length of the whitespace run that starts `s`. */
  function LeadingSpace(s: string): (n: nat)
    ensures n <= |s|
    ensures AllSpace(s[..n])
    ensures n < |s| ==> !IsSpace(s[n])
  {
    if |s| == 0 || !IsSpace(s[0]) then 0
    else
      var n := 1 + LeadingSpace(s[1..]);
      assert forall i :: 1 <= i < n ==> s[..n][i] == s[1..][..n - 1][i - 1];
      n
  }

  /** The length of the whitespace run that ends `s`. */
  function TrailingSpace(s: string): (n: nat)
    ensures n <= |s|
    ensures AllSpace(s[|s| - n..])
    ensures n < |s| ==> !IsSpace(s[|s| - n - 1])
  {
    if |s| == 0 || !IsSpace(s[|s| - 1]) then 0
    else
      var u := s[..|s| - 1];
      var n := 1 + TrailingSpace(u);
      assert s[|s| - n..] == u[|u| - (n - 1)..] + [s[|s| - 1]];
      n
  }

  /** `str.strip()`: `s` without its leading and trailing whitespace. */
  function Strip(s: string): (r: string)
    ensures Trimmed(r)
    ensures LeadingSpace(s) + |r| <= |s|
    ensures r == s[LeadingSpace(s)..LeadingSpace(s) + |r|]
    ensures AllSpace(s[..LeadingSpace(s)]) && AllSpace(s[LeadingSpace(s) + |r|..])
  {
    var i := LeadingSpace(s);
    if i == |s| then []
    else
      var j := |s| - TrailingSpace(s[i..]);
      CoreEnds(s, i, j);
      s[i..j]
  }

  /** Once the leading run `s[..i]` and the trailing run of the rest are cut
      off, a non-empty trimmed core `s[i..j]` remains, followed by spaces. */
  lemma CoreEnds(s: string, i: nat, j: int)
    requires i < |s| && !IsSpace(s[i])
    requires j == |s| - TrailingSpace(s[i..])
    ensures i < j <= |s|
    ensures Trimmed(s[i..j]) && AllSpace(s[j..])
  {
    var u := s[i..];
    CoreOf(u);
    assert s[j..] == u[|u| - TrailingSpace(u)..];
    assert s[i..j] == u[..|u| - TrailingSpace(u)];
  }

  /** A text that starts with a non-space keeps a trimmed core once its
      trailing whitespace is cut off. */
  lemma CoreOf(u: string)
    requires u != [] && !IsSpace(u[0])
    ensures TrailingSpace(u) < |u|
    ensures Trimmed(u[..|u| - TrailingSpace(u)])
  {
    var t := TrailingSpace(u);
    var k := |u| - t;
    assert 0 < k by {
      assert AllSpace(u[k..]);
      assert k < |u| ==> u[k..][0] == u[k];
    }
    var r := u[..k];
    assert !IsSpace(u[k - 1]);
    assert r[0] == u[0];
    assert r[k - 1] == u[k - 1];
  }

  /** A whitespace prefix followed by a non-space (or nothing) is exactly the
      leading run. */
  lemma {:induction false} LeadingSpaceOf(p: string, u: string)
    requires AllSpace(p)
    requires u == [] || !IsSpace(u[0])
    ensures LeadingSpace(p + u) == |p|
  {
    if p != [] {
      assert (p + u)[1..] == p[1..] + u;
      LeadingSpaceOf(p[1..], u);
    }
  }

  /** A whitespace suffix preceded by a non-space (or nothing) is exactly the
      trailing run. */
  lemma {:induction false} TrailingSpaceOf(u: string, q: string)
    requires AllSpace(q)
    requires u == [] || !IsSpace(u[|u| - 1])
    ensures TrailingSpace(u + q) == |q|
  {
    if q != [] {
      assert (u + q)[..|u + q| - 1] == u + q[..|q| - 1];
      TrailingSpaceOf(u, q[..|q| - 1]);
    }
  }

  /** `Strip` agrees with the reference reading of `str.strip()`: whatever
      whitespace surrounds a trimmed core, stripping yields that core. */
  lemma StripUnique(p: string, r: string, q: string)
    requires AllSpace(p) && AllSpace(q) && Trimmed(r)
    ensures Strip(p + r + q) == r
  {
    var s := p + r + q;
    if r == [] {
      assert s == (p + q) + [];
      LeadingSpaceOf(p + q, []);
    } else {
      assert s == p + (r + q);
      LeadingSpaceOf(p, r + q);
      assert s[|p|..] == r + q;
      TrailingSpaceOf(r, q);
      assert s[|p|..|s| - |q|] == r;
    }
  }

  /** Every character of `Strip(s)` is a character of `s`. */
  lemma StripKeeps(s: string, bad: char)
    requires Lacks(s, bad)
    ensures Lacks(Strip(s), bad)
  {
    var r := Strip(s);
    var k := LeadingSpace(s);
    assert forall i :: 0 <= i < |r| ==> r[i] == s[k + i];
  }
}
