/** The quote-stripping pattern `^["'“‘](.+?)["'”’]$`
    (clipboard.py:27), compiled without DOTALL, and its use at clipboard.py:110-112. */
module Quotes {
  import opened Wrappers
  import opened Text

  /** The opening class: straight double, straight single, curly double and curly single opener. */
  predicate IsOpener(c: char) {
    c == '"' || c == '\'' || c == '\U{201C}' || c == '\U{2018}'
  }

  /** The closing class: straight double, straight single, curly double and curly single closer.
      Nothing pairs an opener with its own closer. */
  predicate IsCloser(c: char) {
    c == '"' || c == '\'' || c == '\U{201D}' || c == '\U{2019}'
  }

  /** `t` matches the pattern with `mid` as its group: an opener, a non-empty
      newline-free middle, a closer, then `$`. */
  predicate Quoted(t: string, mid: string) {
    && |mid| >= 1
    && |mid| + 2 <= |t|
    && IsOpener(t[0])
    && t[1..|mid| + 1] == mid
    && NoNewline(mid)
    && IsCloser(t[|mid| + 1])
    && AtEnd(t[|mid| + 2..])
  }

  /** The lazy `(.+?)`: tries the middle `t[1..m]` for m = 2, 3, ... until the
      closer and `$` follow, or a newline stops `.`. */
  function FindCloser(t: string, m: nat): (r: Option<string>)
    requires 2 <= m <= |t| + 1
    requires IsOpener(t[0])
    requires NoNewline(t[1..m - 1])
    ensures r.Some? ==> Quoted(t, r.value) && |r.value| >= m - 1
    decreases |t| - m
  {
    if |t| <= m || t[m - 1] == '\n' then None
    else
      assert t[1..m] == t[1..m - 1] + [t[m - 1]];
      assert NoNewline(t[1..m]);
      if IsCloser(t[m]) && AtEnd(t[m + 1..]) then Some(t[1..m])
      else FindCloser(t, m + 1)
  }

  lemma {:induction false} FindCloserComplete(t: string, m: nat, mid: string)
    requires 2 <= m <= |mid| + 1
    requires Quoted(t, mid)
    ensures NoNewline(t[1..m - 1])
    ensures FindCloser(t, m).Some?
    decreases |mid| + 1 - m
  {
    assert t[1..m - 1] == mid[..m - 2];
    if m <= |mid| {
      assert t[m - 1] == mid[m - 2];
      FindCloserComplete(t, m + 1, mid);
    } else {
      assert t[m - 1] == mid[m - 2];
    }
  }

  /** `QUOTES_PATTERN.match(t)`, giving group 1 when it matches. */
  function QuoteMatch(t: string): (r: Option<string>)
    ensures r.Some? ==> Quoted(t, r.value)
    ensures forall mid :: Quoted(t, mid) ==> r.Some?
  {
    if |t| >= 1 && IsOpener(t[0]) then
      assert forall mid :: Quoted(t, mid) ==> FindCloser(t, 2).Some? by {
        forall mid | Quoted(t, mid) ensures FindCloser(t, 2).Some? {
          FindCloserComplete(t, 2, mid);
        }
      }
      FindCloser(t, 2)
    else None
  }

  /** clipboard.py:110-112: replace the title by the group when the pattern
      matches, and keep it otherwise. */
  function StripQuotes(t: string): (r: string)
    ensures r == t || (Quoted(t, r) && r == t[1..|r| + 1])
    ensures (exists mid :: Quoted(t, mid)) ==> Quoted(t, r)
    ensures (forall mid :: !Quoted(t, mid)) ==> r == t
  {
    match QuoteMatch(t)
    case Some(mid) => mid
    case None => t
  }

  /** For a newline-free title (every title the citation pattern captures),
      quotes are stripped exactly when the first character opens, the last
      closes and at least one character lies between; then exactly the first
      and last character go. */
  lemma StripQuotesNewlineFree(t: string)
    requires NoNewline(t)
    ensures QuoteMatch(t).Some? <==> (|t| >= 3 && IsOpener(t[0]) && IsCloser(t[|t| - 1]))
    ensures StripQuotes(t) == if |t| >= 3 && IsOpener(t[0]) && IsCloser(t[|t| - 1]) then t[1..|t| - 1] else t
  {
    if |t| >= 3 && IsOpener(t[0]) && IsCloser(t[|t| - 1]) {
      assert Quoted(t, t[1..|t| - 1]);
    }
    match QuoteMatch(t)
    case Some(mid) =>
    case None =>
  }

  /** Only one layer goes: the result of stripping may itself still be quoted. */
  lemma OneLayerOnly()
    ensures StripQuotes("''Nested''") == "'Nested'"
    ensures StripQuotes("'Nested'") == "Nested"
  {
    var outer, inner := "''Nested''", "'Nested'";
    assert NoNewline(outer);
    StripQuotesNewlineFree(outer);
    assert IsOpener(outer[0]) && IsCloser(outer[|outer| - 1]);
    assert outer[1..|outer| - 1] == inner;
    assert NoNewline(inner);
    StripQuotesNewlineFree(inner);
    assert IsOpener(inner[0]) && IsCloser(inner[|inner| - 1]);
    assert inner[1..|inner| - 1] == "Nested";
  }

  /** Unpaired quotes are stripped too: a curly single opener with a straight single closer. */
  lemma MixedPairStripped()
    ensures StripQuotes("\U{2018}x'") == "x"
    ensures StripQuotes("\U{201C}x") == "\U{201C}x"
  {
    StripQuotesNewlineFree("\U{2018}x'");
    StripQuotesNewlineFree("\U{201C}x");
  }
}
