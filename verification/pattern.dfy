/** The citation pattern `ZOTERO_PATTERN` of clipboard.py:20-23, compiled with DOTALL:

      ^"?([^"\n]+?)"?\s*\(\[.*?\]\(.*?\)\)\s*\(\[.*?\]\((.+?)\)\)$

    `Matches` reads it as a grammar: some way of cutting the text into the
    pattern's pieces exists. `Search` is what `re.match` does: it tries the
    pieces' alternatives in the regular-expression engine's order (greedy
    `"?` and `\s*` longest first, lazy `+?` and `*?` shortest first) and keeps
    the first complete match. The two agree on which texts match
    (`SearchComplete`), and the search picks the shortest title any reading
    allows (`SearchShortestTitle`). */
module ZoteroPattern {
  import opened Wrappers
  import opened Text

  /** A bracketed link `([text](target))`. */
  datatype LinkGroup = LinkGroup(text: string, target: string)

  /** One reading of a text as the pattern. Group 1 is `title`; group 2 is
      `second.target`. */
  datatype Citation = Citation(
    openQuote: bool,
    title: string,
    closeQuote: bool,
    gap1: string,
    first: LinkGroup,
    gap2: string,
    second: LinkGroup,
    finalNewline: bool)

  /** The reading the innermost step of the search starts from. */
  const Blank := Citation(false, "", false, "", LinkGroup("", ""), "", LinkGroup("", ""), false)

  function Quote(present: bool): string {
    if present then "\"" else ""
  }

  function Newline(present: bool): string {
    if present then "\n" else ""
  }

  /** The title class `[^"\n]`. */
  predicate TitleChar(c: char) {
    c != '"' && c != '\n'
  }

  predicate TitleChars(s: string) {
    forall i :: 0 <= i < |s| ==> TitleChar(s[i])
  }

  // The text a reading stands for, built from the end of the pattern
  // backwards; each function renders the reading from one piece onwards.

  function FromLink(c: Citation): string {
    c.second.target + "))" + Newline(c.finalNewline)
  }

  function FromText2(c: Citation): string {
    c.second.text + "](" + FromLink(c)
  }

  function FromGroup2(c: Citation): string {
    "([" + FromText2(c)
  }

  function FromGap2(c: Citation): string {
    c.gap2 + FromGroup2(c)
  }

  function FromTarget1(c: Citation): string {
    c.first.target + "))" + FromGap2(c)
  }

  function FromText1(c: Citation): string {
    c.first.text + "](" + FromTarget1(c)
  }

  function FromGroup1(c: Citation): string {
    "([" + FromText1(c)
  }

  function FromGap1(c: Citation): string {
    c.gap1 + FromGroup1(c)
  }

  function FromCloseQuote(c: Citation): string {
    Quote(c.closeQuote) + FromGap1(c)
  }

  function FromTitle(c: Citation): string {
    c.title + FromCloseQuote(c)
  }

  /** The whole text a reading stands for: the pattern spelled left to right. */
  function Assemble(c: Citation): string {
    Quote(c.openQuote) + c.title + Quote(c.closeQuote) + c.gap1
    + "([" + c.first.text + "](" + c.first.target + "))" + c.gap2
    + "([" + c.second.text + "](" + c.second.target + "))" + Newline(c.finalNewline)
  }

  lemma Assoc(a: string, b: string, c: string)
    ensures (a + b) + c == a + (b + c)
  {
  }

  /** The text a reading stands for is its opening quote followed by the
      rendering from the title onwards. */
  lemma AssembleSplit(c: Citation)
    ensures Assemble(c) == Quote(c.openQuote) + FromTitle(c)
  {
    var s := Assemble(c);
    var p1 := Quote(c.openQuote);
    var p2 := p1 + c.title;
    var p3 := p2 + Quote(c.closeQuote);
    var p4 := p3 + c.gap1;
    var p5 := p4 + "([";
    var p6 := p5 + c.first.text + "](";
    var p7 := p6 + c.first.target + "))";
    var p8 := p7 + c.gap2;
    var p9 := p8 + "([";
    var p10 := p9 + c.second.text + "](";
    Assoc(p10 + c.second.target, "))", Newline(c.finalNewline));
    Assoc(p10, c.second.target, "))" + Newline(c.finalNewline));
    assert s == p10 + FromLink(c);
    Assoc(p9 + c.second.text, "](", FromLink(c));
    Assoc(p9, c.second.text, "](" + FromLink(c));
    assert s == p9 + FromText2(c);
    Assoc(p8, "([", FromText2(c));
    assert s == p8 + FromGroup2(c);
    Assoc(p7, c.gap2, FromGroup2(c));
    assert s == p7 + FromGap2(c);
    Assoc(p6 + c.first.target, "))", FromGap2(c));
    Assoc(p6, c.first.target, "))" + FromGap2(c));
    assert s == p6 + FromTarget1(c);
    Assoc(p5 + c.first.text, "](", FromTarget1(c));
    Assoc(p5, c.first.text, "](" + FromTarget1(c));
    assert s == p5 + FromText1(c);
    Assoc(p4, "([", FromText1(c));
    assert s == p4 + FromGroup1(c);
    Assoc(p3, c.gap1, FromGroup1(c));
    assert s == p3 + FromGap1(c);
    Assoc(p2, Quote(c.closeQuote), FromGap1(c));
    assert s == p2 + FromCloseQuote(c);
    Assoc(p1, c.title, FromCloseQuote(c));
  }

  /** `(.+?)` captures at least one character. */
  predicate LinkOk(c: Citation) {
    |c.second.target| > 0
  }

  /** The pieces from the second `\s*` onwards obey their classes. */
  predicate FromGap2Ok(c: Citation) {
    AllSpace(c.gap2) && LinkOk(c)
  }

  /** The pieces from the first `\s*` onwards obey their classes. */
  predicate FromGap1Ok(c: Citation) {
    AllSpace(c.gap1) && FromGap2Ok(c)
  }

  /** Every piece obeys its class: the title is `[^"\n]+`, the gaps are
      `\s*`, the kept target is `.+`; the other pieces are `.*`. */
  predicate WellFormed(c: Citation) {
    |c.title| > 0 && TitleChars(c.title) && FromGap1Ok(c)
  }

  /** The text matches the anchored pattern: some reading of it exists. */
  ghost predicate Matches(s: string) {
    exists c :: WellFormed(c) && Assemble(c) == s
  }

  /** `t` is `t[..e]`, then `lit`, then the rest. */
  lemma Around(t: string, e: nat, lit: string)
    requires e + |lit| <= |t| && t[e..e + |lit|] == lit
    ensures t == t[..e] + lit + t[e + |lit|..]
  {
    assert t == t[..e] + t[e..e + |lit|] + t[e + |lit|..];
  }

  // ---------------------------------------------------------------------
  // The search, one function per piece of the pattern, innermost first.

  /** `(.+?)\)\)$`: the kept target is `t[..e]`, for e = 1, 2, ... */
  function FindLink(t: string, e: nat): (r: Option<Citation>)
    requires 1 <= e
    ensures r.Some? ==> FromLink(r.value) == t && LinkOk(r.value)
    decreases |t| - e
  {
    if |t| < e + 2 then None
    else if t[e..e + 2] == "))" && AtEnd(t[e + 2..]) then
      Around(t, e, "))");
      Some(Blank.(second := LinkGroup("", t[..e]), finalNewline := t[e + 2..] == "\n"))
    else FindLink(t, e + 1)
  }

  /** `.*?\]\(`: the second link text is `t[..e]`, for e = 0, 1, ... */
  function FindText2(t: string, e: nat): (r: Option<Citation>)
    ensures r.Some? ==> FromText2(r.value) == t && LinkOk(r.value)
    decreases |t| - e
  {
    if |t| < e + 2 then None
    else if t[e..e + 2] == "](" then
      match FindLink(t[e + 2..], 1)
      case Some(c) =>
        Around(t, e, "](");
        Some(c.(second := c.second.(text := t[..e])))
      case None => FindText2(t, e + 1)
    else FindText2(t, e + 1)
  }

  /** `\(\[` opening the second bracketed link. */
  function FindGroup2(t: string): (r: Option<Citation>)
    ensures r.Some? ==> FromGroup2(r.value) == t && LinkOk(r.value)
  {
    if |t| >= 2 && t[..2] == "([" then
      match FindText2(t[2..], 0)
      case Some(c) =>
        Around(t, 0, "([");
        Some(c)
      case None => None
    else None
  }

  /** The greedy `\s*` before the second link: `t[..n]`, longest first. */
  function FindGap2(t: string, n: nat): (r: Option<Citation>)
    requires n <= LeadingSpace(t)
    ensures r.Some? ==> FromGap2(r.value) == t && FromGap2Ok(r.value)
    decreases n
  {
    match FindGroup2(t[n..])
    case Some(c) =>
      Gap2Step(t, n, c);
      Some(c.(gap2 := t[..n]))
    case None => if n == 0 then None else FindGap2(t, n - 1)
  }

  lemma Gap2Step(t: string, n: nat, c: Citation)
    requires n <= LeadingSpace(t)
    requires FromGroup2(c) == t[n..] && LinkOk(c)
    ensures FromGap2(c.(gap2 := t[..n])) == t && FromGap2Ok(c.(gap2 := t[..n]))
  {
    var c' := c.(gap2 := t[..n]);
    assert FromGroup2(c') == FromGroup2(c);
    assert t[..n] == t[..LeadingSpace(t)][..n];
    assert t == t[..n] + t[n..];
  }

  /** `.*?\)\)`: the first link target is `t[..e]`, for e = 0, 1, ... */
  function FindTarget1(t: string, e: nat): (r: Option<Citation>)
    ensures r.Some? ==> FromTarget1(r.value) == t && FromGap2Ok(r.value)
    decreases |t| - e
  {
    if |t| < e + 2 then None
    else if t[e..e + 2] == "))" then
      var rest := t[e + 2..];
      match FindGap2(rest, LeadingSpace(rest))
      case Some(c) =>
        Around(t, e, "))");
        Some(c.(first := c.first.(target := t[..e])))
      case None => FindTarget1(t, e + 1)
    else FindTarget1(t, e + 1)
  }

  /** `.*?\]\(`: the first link text is `t[..e]`, for e = 0, 1, ... */
  function FindText1(t: string, e: nat): (r: Option<Citation>)
    ensures r.Some? ==> FromText1(r.value) == t && FromGap2Ok(r.value)
    decreases |t| - e
  {
    if |t| < e + 2 then None
    else if t[e..e + 2] == "](" then
      match FindTarget1(t[e + 2..], 0)
      case Some(c) =>
        Around(t, e, "](");
        Some(c.(first := c.first.(text := t[..e])))
      case None => FindText1(t, e + 1)
    else FindText1(t, e + 1)
  }

  /** `\(\[` opening the first bracketed link. */
  function FindGroup1(t: string): (r: Option<Citation>)
    ensures r.Some? ==> FromGroup1(r.value) == t && FromGap2Ok(r.value)
  {
    if |t| >= 2 && t[..2] == "([" then
      match FindText1(t[2..], 0)
      case Some(c) =>
        Around(t, 0, "([");
        Some(c)
      case None => None
    else None
  }

  /** The greedy `\s*` before the first link: `t[..n]`, longest first. */
  function FindGap1(t: string, n: nat): (r: Option<Citation>)
    requires n <= LeadingSpace(t)
    ensures r.Some? ==> FromGap1(r.value) == t && FromGap1Ok(r.value)
    decreases n
  {
    match FindGroup1(t[n..])
    case Some(c) =>
      Gap1Step(t, n, c);
      Some(c.(gap1 := t[..n]))
    case None => if n == 0 then None else FindGap1(t, n - 1)
  }

  lemma Gap1Step(t: string, n: nat, c: Citation)
    requires n <= LeadingSpace(t)
    requires FromGroup1(c) == t[n..] && FromGap2Ok(c)
    ensures FromGap1(c.(gap1 := t[..n])) == t && FromGap1Ok(c.(gap1 := t[..n]))
  {
    var c' := c.(gap1 := t[..n]);
    assert FromGroup1(c') == FromGroup1(c);
    assert t[..n] == t[..LeadingSpace(t)][..n];
    assert t == t[..n] + t[n..];
  }

  /** The greedy `"?` after the title: with the quote first, then without. */
  function FindCloseQuote(t: string): (r: Option<Citation>)
    ensures r.Some? ==> FromCloseQuote(r.value) == t && FromGap1Ok(r.value)
  {
    var quoted :=
      if |t| > 0 && t[0] == '"' then FindGap1(t[1..], LeadingSpace(t[1..])) else None;
    match quoted
    case Some(c) =>
      CloseStep(t, true, c);
      Some(c.(closeQuote := true))
    case None =>
      match FindGap1(t, LeadingSpace(t))
      case Some(c) =>
        CloseStep(t, false, c);
        Some(c.(closeQuote := false))
      case None => None
  }

  lemma CloseStep(t: string, quote: bool, c: Citation)
    requires quote ==> |t| > 0 && t[0] == '"'
    requires FromGap1(c) == (if quote then t[1..] else t) && FromGap1Ok(c)
    ensures FromCloseQuote(c.(closeQuote := quote)) == t && FromGap1Ok(c.(closeQuote := quote))
  {
    var c' := c.(closeQuote := quote);
    assert FromGap1(c') == FromGap1(c);
    if quote {
      assert t == "\"" + t[1..];
    }
  }

  /** The lazy title `([^"\n]+?)`: `t[..e]`, for e = 1, 2, ... while the
      characters stay in the class. */
  function FindTitle(t: string, e: nat): (r: Option<Citation>)
    requires 1 <= e <= |t| + 1
    requires TitleChars(t[..e - 1])
    ensures r.Some? ==> FromTitle(r.value) == t && WellFormed(r.value)
    decreases |t| - e
  {
    if |t| < e || !TitleChar(t[e - 1]) then None
    else
      assert t[..e] == t[..e - 1] + [t[e - 1]];
      match FindCloseQuote(t[e..])
      case Some(c) =>
        TitleStep(t, e, c);
        Some(c.(title := t[..e]))
      case None => FindTitle(t, e + 1)
  }

  lemma TitleStep(t: string, e: nat, c: Citation)
    requires 1 <= e <= |t| && TitleChars(t[..e])
    requires FromCloseQuote(c) == t[e..] && FromGap1Ok(c)
    ensures FromTitle(c.(title := t[..e])) == t && WellFormed(c.(title := t[..e]))
  {
    var c' := c.(title := t[..e]);
    assert FromCloseQuote(c') == FromCloseQuote(c);
    assert t == t[..e] + t[e..];
  }

  /** `ZOTERO_PATTERN.match(s)`: the greedy leading `"?` with the quote
      first, then without; the result is the first complete match. */
  function Search(s: string): (r: Option<Citation>)
    ensures r.Some? ==> WellFormed(r.value) && Assemble(r.value) == s
  {
    var quoted := if |s| > 0 && s[0] == '"' then FindTitle(s[1..], 1) else None;
    match quoted
    case Some(c) =>
      OpenStep(s, true, c);
      Some(c.(openQuote := true))
    case None =>
      match FindTitle(s, 1)
      case Some(c) =>
        OpenStep(s, false, c);
        Some(c.(openQuote := false))
      case None => None
  }

  /** Putting the leading `"?` in front of a reading of the rest. */
  lemma OpenStep(s: string, quote: bool, c: Citation)
    requires quote ==> |s| > 0 && s[0] == '"'
    requires FromTitle(c) == (if quote then s[1..] else s) && WellFormed(c)
    ensures WellFormed(c.(openQuote := quote)) && Assemble(c.(openQuote := quote)) == s
  {
    var c' := c.(openQuote := quote);
    AssembleSplit(c');
    assert FromTitle(c') == FromTitle(c);
    if quote {
      assert s == "\"" + s[1..];
    }
  }

  // ---------------------------------------------------------------------
  // Completeness: every reading is found, so `Search` fails only on texts
  // that do not match at all.

  lemma {:induction false} FindLinkComplete(t: string, e: nat, c: Citation)
    requires 1 <= e <= |c.second.target|
    requires FromLink(c) == t
    ensures FindLink(t, e).Some?
    decreases |c.second.target| - e
  {
    var k := |c.second.target|;
    assert t[k..k + 2] == "))" && t[k + 2..] == Newline(c.finalNewline);
    if e < k {
      FindLinkComplete(t, e + 1, c);
    }
  }

  lemma {:induction false} FindText2Complete(t: string, e: nat, c: Citation)
    requires e <= |c.second.text|
    requires FromText2(c) == t && LinkOk(c)
    ensures FindText2(t, e).Some?
    decreases |c.second.text| - e
  {
    var k := |c.second.text|;
    assert t[k..k + 2] == "](" && t[k + 2..] == FromLink(c);
    if e < k {
      FindText2Complete(t, e + 1, c);
    } else {
      FindLinkComplete(t[k + 2..], 1, c);
    }
  }

  lemma FindGroup2Complete(t: string, c: Citation)
    requires FromGroup2(c) == t && LinkOk(c)
    ensures FindGroup2(t).Some?
  {
    assert t[..2] == "([" && t[2..] == FromText2(c);
    FindText2Complete(t[2..], 0, c);
  }

  lemma FindGap2Complete(t: string, c: Citation)
    requires FromGap2(c) == t && FromGap2Ok(c)
    ensures LeadingSpace(t) == |c.gap2|
    ensures FindGap2(t, LeadingSpace(t)).Some?
  {
    LeadingSpaceOf(c.gap2, FromGroup2(c));
    assert t[|c.gap2|..] == FromGroup2(c);
    FindGroup2Complete(t[|c.gap2|..], c);
  }

  lemma {:induction false} FindTarget1Complete(t: string, e: nat, c: Citation)
    requires e <= |c.first.target|
    requires FromTarget1(c) == t && FromGap2Ok(c)
    ensures FindTarget1(t, e).Some?
    decreases |c.first.target| - e
  {
    var k := |c.first.target|;
    assert t[k..k + 2] == "))" && t[k + 2..] == FromGap2(c);
    if e < k {
      FindTarget1Complete(t, e + 1, c);
    } else {
      FindGap2Complete(t[k + 2..], c);
    }
  }

  lemma {:induction false} FindText1Complete(t: string, e: nat, c: Citation)
    requires e <= |c.first.text|
    requires FromText1(c) == t && FromGap2Ok(c)
    ensures FindText1(t, e).Some?
    decreases |c.first.text| - e
  {
    var k := |c.first.text|;
    assert t[k..k + 2] == "](" && t[k + 2..] == FromTarget1(c);
    if e < k {
      FindText1Complete(t, e + 1, c);
    } else {
      FindTarget1Complete(t[k + 2..], 0, c);
    }
  }

  lemma FindGroup1Complete(t: string, c: Citation)
    requires FromGroup1(c) == t && FromGap2Ok(c)
    ensures FindGroup1(t).Some?
  {
    assert t[..2] == "([" && t[2..] == FromText1(c);
    FindText1Complete(t[2..], 0, c);
  }

  lemma FindGap1Complete(t: string, c: Citation)
    requires FromGap1(c) == t && FromGap1Ok(c)
    ensures LeadingSpace(t) == |c.gap1|
    ensures FindGap1(t, LeadingSpace(t)).Some?
  {
    LeadingSpaceOf(c.gap1, FromGroup1(c));
    assert t[|c.gap1|..] == FromGroup1(c);
    FindGroup1Complete(t[|c.gap1|..], c);
  }

  lemma FindCloseQuoteComplete(t: string, c: Citation)
    requires FromCloseQuote(c) == t && FromGap1Ok(c)
    ensures FindCloseQuote(t).Some?
  {
    if c.closeQuote {
      assert t[1..] == FromGap1(c);
      FindGap1Complete(t[1..], c);
    } else {
      FindGap1Complete(t, c);
    }
  }

  /** The first `e` characters of a text a reading stands for are title characters. */
  lemma TitlePrefix(t: string, e: nat, c: Citation)
    requires 1 <= e <= |c.title|
    requires FromTitle(c) == t && TitleChars(c.title)
    ensures e <= |t| && TitleChars(t[..e]) && TitleChars(t[..e - 1]) && TitleChar(t[e - 1])
    ensures t[..|c.title|] == c.title && t[|c.title|..] == FromCloseQuote(c)
  {
    assert t[..e] == c.title[..e];
    assert t[..e - 1] == c.title[..e - 1];
  }

  /** The lazy title loop reaches the title of any reading, so the title it
      settles on is no longer than that one. */
  lemma {:induction false} FindTitleShortest(t: string, e: nat, c: Citation)
    requires 1 <= e <= |c.title|
    requires FromTitle(c) == t && WellFormed(c)
    ensures e <= |t| + 1 && TitleChars(t[..e - 1])
    ensures FindTitle(t, e).Some? && |FindTitle(t, e).value.title| <= |c.title|
    decreases |c.title| - e
  {
    var k := |c.title|;
    TitlePrefix(t, e, c);
    if e < k {
      FindTitleShortest(t, e + 1, c);
      match FindCloseQuote(t[e..])
      case Some(c') =>
        assert FindTitle(t, e) == Some(c'.(title := t[..e]));
      case None =>
        assert FindTitle(t, e) == FindTitle(t, e + 1);
    } else {
      FindCloseQuoteComplete(t[k..], c);
    }
  }

  /** Whenever the text matches, `Search` finds a reading. */
  lemma SearchComplete(s: string)
    ensures Search(s).Some? <==> Matches(s)
  {
    if Matches(s) {
      var c :| WellFormed(c) && Assemble(c) == s;
      SearchShortestTitle(s, c);
    }
  }

  /** Non-greedy title: the title `Search` captures is the shortest title of
      all readings of the text. */
  lemma SearchShortestTitle(s: string, c: Citation)
    requires WellFormed(c) && Assemble(c) == s
    ensures Search(s).Some? && |Search(s).value.title| <= |c.title|
  {
    AssembleSplit(c);
    if c.openQuote {
      assert s[1..] == FromTitle(c);
      FindTitleShortest(s[1..], 1, c);
    } else {
      assert s[0] == c.title[0];
      FindTitleShortest(s, 1, c);
    }
  }

  // ---------------------------------------------------------------------
  // Exactness: when no piece contains the delimiter that closes it, the
  // search returns precisely the reading the text was built from.

  /** A reading whose pieces cannot be cut any other way by the search: the
      title holds no `(` and does not end in whitespace, the link texts hold
      no `]`, the link targets hold no `)`. */
  predicate Unambiguous(c: Citation) {
    && WellFormed(c)
    && Lacks(c.title, '(')
    && !IsSpace(c.title[|c.title| - 1])
    && Lacks(c.first.text, ']')
    && Lacks(c.first.target, ')')
    && Lacks(c.second.text, ']')
    && Lacks(c.second.target, ')')
  }

  lemma {:induction false} FindLinkExact(t: string, e: nat, c: Citation)
    requires 1 <= e <= |c.second.target|
    requires FromLink(c) == t && Lacks(c.second.target, ')')
    ensures FindLink(t, e).Some?
    ensures FindLink(t, e).value.second.target == c.second.target
    ensures FindLink(t, e).value.finalNewline == c.finalNewline
    decreases |c.second.target| - e
  {
    var k := |c.second.target|;
    assert t[k..k + 2] == "))" && t[k + 2..] == Newline(c.finalNewline);
    if e < k {
      assert t[e] == c.second.target[e];
      FindLinkExact(t, e + 1, c);
    } else {
      assert t[..k] == c.second.target;
    }
  }

  lemma {:induction false} FindText2Exact(t: string, e: nat, c: Citation)
    requires e <= |c.second.text|
    requires FromText2(c) == t && Unambiguous(c)
    ensures FindText2(t, e).Some?
    ensures FindText2(t, e).value.second == c.second
    ensures FindText2(t, e).value.finalNewline == c.finalNewline
    decreases |c.second.text| - e
  {
    var k := |c.second.text|;
    assert t[k..k + 2] == "](" && t[k + 2..] == FromLink(c);
    if e < k {
      assert t[e] == c.second.text[e];
      FindText2Exact(t, e + 1, c);
    } else {
      assert t[..k] == c.second.text;
      FindLinkExact(t[k + 2..], 1, c);
    }
  }

  lemma FindGap2Exact(t: string, c: Citation)
    requires FromGap2(c) == t && Unambiguous(c)
    ensures LeadingSpace(t) == |c.gap2|
    ensures FindGap2(t, LeadingSpace(t)).Some?
    ensures FindGap2(t, LeadingSpace(t)).value.gap2 == c.gap2
    ensures FindGap2(t, LeadingSpace(t)).value.second == c.second
    ensures FindGap2(t, LeadingSpace(t)).value.finalNewline == c.finalNewline
  {
    var k := |c.gap2|;
    LeadingSpaceOf(c.gap2, FromGroup2(c));
    var u := t[k..];
    assert u == FromGroup2(c) && t[..k] == c.gap2;
    assert u[..2] == "([" && u[2..] == FromText2(c);
    FindText2Exact(u[2..], 0, c);
  }

  lemma {:induction false} FindTarget1Exact(t: string, e: nat, c: Citation)
    requires e <= |c.first.target|
    requires FromTarget1(c) == t && Unambiguous(c)
    ensures FindTarget1(t, e).Some?
    ensures var r := FindTarget1(t, e).value;
      r.first.target == c.first.target && r.gap2 == c.gap2 && r.second == c.second
      && r.finalNewline == c.finalNewline
    decreases |c.first.target| - e
  {
    var k := |c.first.target|;
    assert t[k..k + 2] == "))" && t[k + 2..] == FromGap2(c);
    if e < k {
      assert t[e..e + 2][0] == c.first.target[e] != ')';
      FindTarget1Exact(t, e + 1, c);
    } else {
      assert t[..k] == c.first.target;
      FindGap2Exact(t[k + 2..], c);
    }
  }

  lemma {:induction false} FindText1Exact(t: string, e: nat, c: Citation)
    requires e <= |c.first.text|
    requires FromText1(c) == t && Unambiguous(c)
    ensures FindText1(t, e).Some?
    ensures var r := FindText1(t, e).value;
      r.first == c.first && r.gap2 == c.gap2 && r.second == c.second
      && r.finalNewline == c.finalNewline
    decreases |c.first.text| - e
  {
    var k := |c.first.text|;
    assert t[k..k + 2] == "](" && t[k + 2..] == FromTarget1(c);
    if e < k {
      assert t[e] == c.first.text[e];
      FindText1Exact(t, e + 1, c);
    } else {
      assert t[..k] == c.first.text;
      FindTarget1Exact(t[k + 2..], 0, c);
    }
  }

  lemma FindGap1Exact(t: string, c: Citation)
    requires FromGap1(c) == t && Unambiguous(c)
    ensures LeadingSpace(t) == |c.gap1|
    ensures FindGap1(t, LeadingSpace(t)).Some?
    ensures var r := FindGap1(t, LeadingSpace(t)).value;
      r.gap1 == c.gap1 && r.first == c.first && r.gap2 == c.gap2
      && r.second == c.second && r.finalNewline == c.finalNewline
  {
    var k := |c.gap1|;
    LeadingSpaceOf(c.gap1, FromGroup1(c));
    var u := t[k..];
    assert u == FromGroup1(c) && t[..k] == c.gap1;
    assert u[..2] == "([" && u[2..] == FromText1(c);
    FindText1Exact(u[2..], 0, c);
  }

  lemma FindCloseQuoteExact(t: string, c: Citation)
    requires FromCloseQuote(c) == t && Unambiguous(c)
    ensures FindCloseQuote(t).Some?
    ensures var r := FindCloseQuote(t).value;
      r.closeQuote == c.closeQuote && r.gap1 == c.gap1 && r.first == c.first
      && r.gap2 == c.gap2 && r.second == c.second && r.finalNewline == c.finalNewline
  {
    if c.closeQuote {
      assert t[1..] == FromGap1(c);
      FindGap1Exact(t[1..], c);
    } else {
      assert t == FromGap1(c);
      if c.gap1 != [] {
        assert t[0] == c.gap1[0];
      }
      FindGap1Exact(t, c);
    }
  }

  /** With the first non-space character not `(`, no length of `\s*` lets
      the first bracketed link start. */
  lemma {:induction false} FindGap1Fails(u: string, n: nat)
    requires n <= LeadingSpace(u)
    requires LeadingSpace(u) == |u| || u[LeadingSpace(u)] != '('
    ensures FindGap1(u, n) == None
    decreases n
  {
    if n < LeadingSpace(u) {
      assert u[n] == u[..LeadingSpace(u)][n];
    }
    if n > 0 {
      FindGap1Fails(u, n - 1);
    }
  }

  /** A text starting with neither `"` nor, before its first non-space
      character `u[j]`, any `(`, cannot continue after the title. */
  lemma CloseQuoteFails(u: string, j: nat)
    requires j < |u| && !IsSpace(u[j]) && u[0] != '"'
    requires Lacks(u[..j + 1], '(')
    ensures FindCloseQuote(u) == None
  {
    var n := LeadingSpace(u);
    assert forall i :: 0 <= i < n ==> IsSpace(u[i]) by {
      assert forall i :: 0 <= i < n ==> u[..n][i] == u[i];
    }
    assert n <= j;
    assert u[n] == u[..j + 1][n];
    FindGap1Fails(u, n);
  }

  lemma {:induction false} FindTitleExact(t: string, e: nat, c: Citation)
    requires 1 <= e <= |c.title|
    requires FromTitle(c) == t && Unambiguous(c)
    ensures e <= |t| + 1 && TitleChars(t[..e - 1])
    ensures FindTitle(t, e).Some?
    ensures var r := FindTitle(t, e).value;
      r.title == c.title && r.closeQuote == c.closeQuote && r.gap1 == c.gap1
      && r.first == c.first && r.gap2 == c.gap2 && r.second == c.second
      && r.finalNewline == c.finalNewline
    decreases |c.title| - e
  {
    var k := |c.title|;
    assert t[..k] == c.title && t[k..] == FromCloseQuote(c);
    assert t[..e - 1] == c.title[..e - 1];
    assert t[e - 1] == c.title[e - 1];
    if e < k {
      var u := t[e..];
      assert u[..k - e] == c.title[e..];
      assert u[0] == c.title[e];
      CloseQuoteFails(u, k - 1 - e);
      FindTitleExact(t, e + 1, c);
    } else {
      FindCloseQuoteExact(t[k..], c);
    }
  }

  /** The search recovers an unambiguous reading exactly. */
  lemma SearchExact(c: Citation)
    requires Unambiguous(c)
    ensures Search(Assemble(c)) == Some(c)
  {
    var s := Assemble(c);
    AssembleSplit(c);
    if c.openQuote {
      assert s[1..] == FromTitle(c);
      FindTitleExact(s[1..], 1, c);
    } else {
      assert s[0] == c.title[0];
      FindTitleExact(s, 1, c);
    }
  }

  predicate EndsWith(s: string, suffix: string) {
    |suffix| <= |s| && s[|s| - |suffix|..] == suffix
  }

  lemma EndsWithAfter(a: string, b: string, suffix: string)
    requires EndsWith(b, suffix)
    ensures EndsWith(a + b, suffix)
  {
    assert (a + b)[|a + b| - |suffix|..] == b[|b| - |suffix|..];
  }

  /** Every matching text ends with `))`, or with `))` and one newline. */
  lemma MatchEnding(s: string)
    requires Matches(s)
    ensures EndsWith(s, "))") || EndsWith(s, "))\n")
  {
    var c :| WellFormed(c) && Assemble(c) == s;
    AssembleEnding(c);
    if c.finalNewline {
      assert "))" + Newline(c.finalNewline) == "))\n";
    } else {
      assert "))" + Newline(c.finalNewline) == "))";
    }
  }

  lemma AssembleEnding(c: Citation)
    ensures EndsWith(Assemble(c), "))" + Newline(c.finalNewline))
  {
    var p := Quote(c.openQuote) + c.title + Quote(c.closeQuote) + c.gap1
             + "([" + c.first.text + "](" + c.first.target + "))" + c.gap2
             + "([" + c.second.text + "](" + c.second.target;
    Assoc(p, "))", Newline(c.finalNewline));
    EndsWithAfter(p, "))" + Newline(c.finalNewline), "))" + Newline(c.finalNewline));
  }
}
