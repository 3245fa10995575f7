/** The inputs of test_pattern.py:8-21 and a few further cases, as facts
    about the model. Each citation text is written as the concatenation of
    its pieces in the order the pattern cuts it, with `""` where a piece is
    absent; the strings are the literals of the tests. */
module Examples {
  import opened Wrappers
  import opened Text
  import opened Quotes
  import opened ZoteroPattern
  import opened Preferences
  import opened ClipboardFormatter

  const Title: string := "loss-free balance routing"
  const Locator: LinkGroup := LinkGroup("Team et al., 2025, p. 2", "zotero://select/library/items/UVG6GBGT")
  const PdfTarget: string := "zotero://open-pdf/library/items/" + "NUG9I57I?page=2&annotation=FIFCZW5L"
  const Pdf: LinkGroup := LinkGroup("pdf", PdfTarget)

  /** test_pattern.py:8 (line 11 holds the same text). */
  const QuotedCitation: string :=
    "\"" + "loss-free balance routing" + "\"" + " "
    + "([" + "Team et al., 2025, p. 2" + "](" + "zotero://select/library/items/UVG6GBGT" + "))" + " "
    + "([" + "pdf" + "](" + "zotero://open-pdf/library/items/" + "NUG9I57I?page=2&annotation=FIFCZW5L" + "))"

  /** test_pattern.py:14: no spaces between the pieces. */
  const Unspaced: string :=
    "\"" + "loss-free balance routing" + "\"" + ""
    + "([" + "Team et al., 2025, p. 2" + "](" + "zotero://select/library/items/UVG6GBGT" + "))"
    + "" + "([" + "pdf" + "](" + "zotero://open-pdf/library/items/" + "NUG9I57I?page=2&annotation=FIFCZW5L" + "))"

  /** test_pattern.py:17: no quotes around the title. */
  const Unquoted: string :=
    "" + "loss-free balance routing" + "" + " "
    + "([" + "Team et al., 2025, p. 2" + "](" + "zotero://select/library/items/UVG6GBGT" + "))" + " "
    + "([" + "pdf" + "](" + "zotero://open-pdf/library/items/" + "NUG9I57I?page=2&annotation=FIFCZW5L" + "))"

  /** The title in curly double quotes, which neither `"?` takes. */
  const CurlyTitle: string := "\U{201C}" + "loss-free balance routing" + "\U{201D}"

  const Curly: string :=
    "" + ("\U{201C}" + "loss-free balance routing" + "\U{201D}") + "" + " "
    + "([" + "Team et al., 2025, p. 2" + "](" + "zotero://select/library/items/UVG6GBGT" + "))" + " "
    + "([" + "pdf" + "](" + "zotero://open-pdf/library/items/" + "NUG9I57I?page=2&annotation=FIFCZW5L" + "))"

  const PlainConfig: Config := Config(DefaultRecord)
  const MarkdownConfig: Config := Config(map[ModeKey := JString(Token(MarkdownReference))])

  /** The markdown output expected for the examples above. */
  const MarkdownTitle: string := "[" + Title + "](" + PdfTarget + ")"

  // Facts about the pieces, one per lemma so that each stays cheap.

  lemma TitleClean()
    ensures TitleChars(Title) && Lacks(Title, '(') && !IsSpace(Title[|Title| - 1])
  {
  }

  lemma CurlyTitleClean()
    ensures TitleChars(CurlyTitle) && Lacks(CurlyTitle, '(') && !IsSpace(CurlyTitle[|CurlyTitle| - 1])
  {
  }

  lemma LocatorClean()
    ensures Lacks(Locator.text, ']') && Lacks(Locator.target, ')')
  {
  }

  lemma PdfClean()
    ensures Lacks(Pdf.text, ']') && Lacks(Pdf.target, ')')
  {
  }

  /** The example readings are unambiguous. */
  lemma ExampleUnambiguous(openQuote: bool, title: string, closeQuote: bool, gap1: string, gap2: string)
    requires title == Title || title == CurlyTitle
    requires AllSpace(gap1) && AllSpace(gap2)
    ensures Unambiguous(Citation(openQuote, title, closeQuote, gap1, Locator, gap2, Pdf, false))
  {
    TitleClean();
    CurlyTitleClean();
    LocatorClean();
    PdfClean();
  }

  lemma TitleStripped()
    ensures Strip(Title) == Title
  {
    StripUnique("", Title, "");
    assert "" + Title + "" == Title;
  }

  lemma TitleTrimmed()
    ensures CleanTitle(Title) == Title
  {
    TitleStripped();
    assert !IsOpener(Title[0]);
  }

  lemma TargetTrimmed()
    ensures Strip(PdfTarget) == PdfTarget
  {
    StripUnique("", PdfTarget, "");
    assert "" + PdfTarget + "" == PdfTarget;
  }

  lemma CurlyTitleCleaned()
    ensures CleanTitle(CurlyTitle) == Title
  {
    StripUnique("", CurlyTitle, "");
    assert "" + CurlyTitle + "" == CurlyTitle;
    assert CurlyTitle[1..|CurlyTitle| - 1] == Title;
  }

  lemma ConfigModes()
    ensures GetMode(PlainConfig) == PlainText
    ensures GetMode(MarkdownConfig) == MarkdownReference
  {
  }

  /** `reformat` renders the reading the search returns. */
  lemma ReformatOfReading(config: Config, text: string, c: Citation)
    ensures Search(text) == Some(c) ==>
              Reformat(config, text) == Some(Render(GetMode(config), CleanTitle(c.title), Strip(c.second.target)))
  {
  }

  // The readings of the example texts.

  lemma QuotedAssembled()
    ensures Assemble(Citation(true, Title, true, " ", Locator, " ", Pdf, false)) == QuotedCitation
  {
  }

  lemma UnspacedAssembled()
    ensures Assemble(Citation(true, Title, true, "", Locator, "", Pdf, false)) == Unspaced
  {
  }

  lemma UnquotedAssembled()
    ensures Assemble(Citation(false, Title, false, " ", Locator, " ", Pdf, false)) == Unquoted
  {
  }

  lemma CurlyAssembled()
    ensures Assemble(Citation(false, CurlyTitle, false, " ", Locator, " ", Pdf, false)) == Curly
  {
  }

  lemma QuotedReading()
    ensures Search(QuotedCitation) == Some(Citation(true, Title, true, " ", Locator, " ", Pdf, false))
  {
    ExampleUnambiguous(true, Title, true, " ", " ");
    QuotedAssembled();
    SearchExact(Citation(true, Title, true, " ", Locator, " ", Pdf, false));
  }

  lemma UnspacedReading()
    ensures Search(Unspaced) == Some(Citation(true, Title, true, "", Locator, "", Pdf, false))
  {
    ExampleUnambiguous(true, Title, true, "", "");
    UnspacedAssembled();
    SearchExact(Citation(true, Title, true, "", Locator, "", Pdf, false));
  }

  lemma UnquotedReading()
    ensures Search(Unquoted) == Some(Citation(false, Title, false, " ", Locator, " ", Pdf, false))
  {
    ExampleUnambiguous(false, Title, false, " ", " ");
    UnquotedAssembled();
    SearchExact(Citation(false, Title, false, " ", Locator, " ", Pdf, false));
  }

  /** Curly quotes are captured as part of the title. */
  lemma CurlyReading()
    ensures Search(Curly) == Some(Citation(false, CurlyTitle, false, " ", Locator, " ", Pdf, false))
  {
    ExampleUnambiguous(false, CurlyTitle, false, " ", " ");
    CurlyAssembled();
    SearchExact(Citation(false, CurlyTitle, false, " ", Locator, " ", Pdf, false));
  }

  // The outputs.

  /** The quoted test citation in both modes. */
  lemma QuotedExample()
    ensures Reformat(PlainConfig, QuotedCitation) == Some(Title)
    ensures Reformat(MarkdownConfig, QuotedCitation) == Some(MarkdownTitle)
  {
    QuotedReading();
    TitleTrimmed();
    TargetTrimmed();
    ConfigModes();
    ReformatOfReading(PlainConfig, QuotedCitation, Citation(true, Title, true, " ", Locator, " ", Pdf, false));
    ReformatOfReading(MarkdownConfig, QuotedCitation, Citation(true, Title, true, " ", Locator, " ", Pdf, false));
  }

  lemma UnspacedExample()
    ensures Reformat(PlainConfig, Unspaced) == Some(Title)
    ensures Reformat(MarkdownConfig, Unspaced) == Some(MarkdownTitle)
  {
    UnspacedReading();
    TitleTrimmed();
    TargetTrimmed();
    ConfigModes();
    ReformatOfReading(PlainConfig, Unspaced, Citation(true, Title, true, "", Locator, "", Pdf, false));
    ReformatOfReading(MarkdownConfig, Unspaced, Citation(true, Title, true, "", Locator, "", Pdf, false));
  }

  lemma UnquotedExample()
    ensures Reformat(PlainConfig, Unquoted) == Some(Title)
    ensures Reformat(MarkdownConfig, Unquoted) == Some(MarkdownTitle)
  {
    UnquotedReading();
    TitleTrimmed();
    TargetTrimmed();
    ConfigModes();
    ReformatOfReading(PlainConfig, Unquoted, Citation(false, Title, false, " ", Locator, " ", Pdf, false));
    ReformatOfReading(MarkdownConfig, Unquoted, Citation(false, Title, false, " ", Locator, " ", Pdf, false));
  }

  /** Curly quotes go at the quote-stripping step. */
  lemma CurlyExample()
    ensures Reformat(PlainConfig, Curly) == Some(Title)
    ensures Reformat(MarkdownConfig, Curly) == Some(MarkdownTitle)
  {
    CurlyReading();
    CurlyTitleCleaned();
    TitleTrimmed();
    TargetTrimmed();
    ConfigModes();
    ReformatOfReading(PlainConfig, Curly, Citation(false, CurlyTitle, false, " ", Locator, " ", Pdf, false));
    ReformatOfReading(MarkdownConfig, Curly, Citation(false, CurlyTitle, false, " ", Locator, " ", Pdf, false));
  }

  /** test_pattern.py:20-21: plain text and a single markdown link are not citations. */
  lemma NotCitations()
    ensures Reformat(PlainConfig, "This is just plain text") == None
    ensures Reformat(PlainConfig, "Another [link](https://example.com)") == None
  {
    if Matches("This is just plain text") {
      MatchEnding("This is just plain text");
    }
    if Matches("Another [link](https://example.com)") {
      MatchEnding("Another [link](https://example.com)");
    }
  }

  const Nested: string := "\"'Nested'\" ([a](b)) ([c](d))"
  const NestedReading: Citation :=
    Citation(true, "'Nested'", true, " ", LinkGroup("a", "b"), " ", LinkGroup("c", "d"), false)

  lemma NestedAssembled()
    ensures Assemble(NestedReading) == Nested
  {
  }

  lemma NestedUnambiguous()
    ensures Unambiguous(NestedReading)
  {
    assert Lacks(NestedReading.title, '(');
  }

  lemma NestedFound()
    ensures Search(Nested) == Some(NestedReading)
  {
    NestedAssembled();
    NestedUnambiguous();
    SearchExact(NestedReading);
  }

  lemma NestedStripped()
    ensures Strip("'Nested'") == "'Nested'"
    ensures Strip("d") == "d"
  {
    StripUnique("", "'Nested'", "");
    assert "" + "'Nested'" + "" == "'Nested'";
    StripUnique("", "d", "");
    assert "" + "d" + "" == "d";
  }

  lemma NestedCleaned()
    ensures CleanTitle("'Nested'") == "Nested"
  {
    NestedStripped();
    var s := "'Nested'";
    assert |s| >= 3 && IsOpener(s[0]) && IsCloser(s[|s| - 1]);
    assert s[1..|s| - 1] == "Nested";
  }

  /** A title in straight double quotes holding single-quoted text: the
      pattern takes the double quotes, quote stripping the single ones. */
  lemma NestedQuotesExample()
    ensures Reformat(PlainConfig, Nested) == Some("Nested")
  {
    NestedFound();
    NestedCleaned();
    NestedStripped();
    ConfigModes();
    ReformatOfReading(PlainConfig, Nested, NestedReading);
  }

  /** A formatter in plain-text mode with two callbacks registered. */
  const Listening: Formatter := Formatter(PlainConfig, "", [0, 1])

  lemma ListeningRegistered()
    ensures Register(Init(PlainConfig), [0, 1]) == Listening
  {
  }

  lemma QuotedRewritten()
    ensures IsNew(Listening, Some(QuotedCitation))
    ensures Rewrites(Listening, QuotedCitation, Title)
  {
    var c := Citation(true, Title, true, " ", Locator, " ", Pdf, false);
    QuotedReading();
    assert WellFormed(c) && Assemble(c) == QuotedCitation;
    QuotedExample();
    assert QuotedCitation[0] == '"' != Title[0];
  }

  /** What processing the quoted citation with that formatter leaves behind. */
  const Rewritten: Step :=
    Step(Formatter(PlainConfig, Title, [0, 1]), Board(Some(Title), true, Writes),
         [Invocation(0, QuotedCitation, Title, true), Invocation(1, QuotedCitation, Title, false)])

  /** A new citation is rewritten, written back and announced. */
  lemma RewriteStep(f: Formatter, b: Board, failing: set<CallbackId>, out: string)
    ensures IsNew(f, ReadText(b)) && Rewrites(f, ReadText(b).value, out) ==>
              ProcessClipboard(f, b, failing)
              == Step(f.(lastSeen := out), WriteText(b, out), Notify(f.callbacks, ReadText(b).value, out, failing))
  {
  }

  lemma NotifyTwo(first: CallbackId, second: CallbackId, original: string, reformatted: string, failing: set<CallbackId>)
    ensures Notify([first, second], original, reformatted, failing)
            == [Invocation(first, original, reformatted, first in failing),
                Invocation(second, original, reformatted, second in failing)]
  {
    var log := Notify([first, second], original, reformatted, failing);
    assert log[0] == Invocation(first, original, reformatted, first in failing);
    assert log[1] == Invocation(second, original, reformatted, second in failing);
  }

  lemma FirstStep()
    ensures ProcessClipboard(Listening, Board(Some(QuotedCitation), true, Writes), {0}) == Rewritten
  {
    QuotedRewritten();
    RewriteStep(Listening, Board(Some(QuotedCitation), true, Writes), {0}, Title);
    NotifyTwo(0, 1, QuotedCitation, Title, {0});
  }

  /** A citation copied with two callbacks registered, then seen again: it
      is rewritten once, and the next step finds the rewritten text and does
      nothing. A callback that raises does not stop the one after it. */
  lemma ProcessExample()
    ensures var r := ProcessClipboard(Register(Init(PlainConfig), [0, 1]), Board(Some(QuotedCitation), true, Writes), {0});
      && r.board.content == Some(Title)
      && r.formatter.lastSeen == Title
      && r.invocations == [Invocation(0, QuotedCitation, Title, true), Invocation(1, QuotedCitation, Title, false)]
      && ProcessClipboard(r.formatter, r.board, {0}) == Step(r.formatter, r.board, [])
  {
    ListeningRegistered();
    FirstStep();
  }
}
