/** `ClipboardFormatter` (clipboard.py:14-158): recognising a citation,
    rewriting it for the active mode, and the clipboard processing step. */
module ClipboardFormatter {
  import opened Wrappers
  import opened Text
  import opened Quotes
  import opened ZoteroPattern
  import opened Preferences

  /** `matches_zotero_format` (clipboard.py:82-91). */
  function MatchesZoteroFormat(text: string): (b: bool)
    ensures b <==> Matches(text)
  {
    SearchComplete(text);
    Search(text).Some?
  }

  /** The title as `reformat` leaves it (clipboard.py:106, 110-112): trimmed,
      then one layer of surrounding quotes removed. */
  function CleanTitle(raw: string): (t: string)
    requires TitleChars(raw)
    ensures TitleChars(t)
    ensures var s := Strip(raw);
      t == if |s| >= 3 && IsOpener(s[0]) && IsCloser(s[|s| - 1]) then s[1..|s| - 1] else s
  {
    var s := Strip(raw);
    StrippedTitleChars(raw);
    StripQuotesNewlineFree(s);
    assert TitleChars(StripQuotes(s)) by {
      if StripQuotes(s) != s {
        assert forall i :: 0 <= i < |s| - 2 ==> StripQuotes(s)[i] == s[i + 1];
      }
    }
    StripQuotes(s)
  }

  /** Trimming a title keeps it inside the title class. */
  lemma StrippedTitleChars(raw: string)
    requires TitleChars(raw)
    ensures TitleChars(Strip(raw)) && NoNewline(Strip(raw))
  {
    StripKeeps(raw, '"');
    StripKeeps(raw, '\n');
  }

  /** The output for a mode (clipboard.py:114-119): the title alone, or the
      title in brackets followed by the link in parentheses. */
  function Render(mode: OutputMode, title: string, link: string): (r: string)
    ensures mode == PlainText ==> r == title
    ensures mode == MarkdownReference ==>
              && |r| == |title| + |link| + 4
              && r[0] == '[' && r[1..|title| + 1] == title
              && r[|title| + 1..|title| + 3] == "]("
              && r[|title| + 3..|r| - 1] == link && r[|r| - 1] == ')'
  {
    match mode
    case PlainText => title
    case MarkdownReference => "[" + title + "](" + link + ")"
  }

  /** `reformat` (clipboard.py:93-121): nothing unless the whole text
      matches; otherwise the cleaned title, alone or as a markdown link to the
      trimmed group-2 target, as the configured mode asks. */
  function Reformat(config: Config, text: string): (r: Option<string>)
    ensures r.None? <==> !Matches(text)
  {
    SearchComplete(text);
    match Search(text)
    case None => None
    case Some(c) =>
      Some(Render(GetMode(config), CleanTitle(c.title), Strip(c.second.target)))
  }

  /** `reformat` and `matches_zotero_format` run the same pattern, so they
      agree on which texts are citations. */
  lemma ReformatAgreesWithMatches(config: Config, text: string)
    ensures Reformat(config, text).Some? <==> MatchesZoteroFormat(text)
  {
  }

  /** In plain-text mode a citation becomes exactly its cleaned title: the
      captured title trimmed and unquoted, holding no straight double quote
      and no newline, and with no surrounding whitespace before unquoting. */
  lemma PlainTextOutput(config: Config, text: string)
    requires GetMode(config) == PlainText && Matches(text)
    ensures Search(text).Some?
    ensures var c := Search(text).value;
      && Reformat(config, text) == Some(CleanTitle(c.title))
      && Trimmed(Strip(c.title))
      && TitleChars(Reformat(config, text).value)
  {
    SearchComplete(text);
  }

  /** In markdown mode a citation becomes exactly `[title](link)` with the
      cleaned title and the trimmed group-2 target. */
  lemma MarkdownOutput(config: Config, text: string)
    requires GetMode(config) == MarkdownReference && Matches(text)
    ensures Search(text).Some?
    ensures var c := Search(text).value;
      && Reformat(config, text) == Some("[" + CleanTitle(c.title) + "](" + Strip(c.second.target) + ")")
      && Trimmed(Strip(c.second.target))
  {
    SearchComplete(text);
  }

  /** For a citation built from pieces that hold none of their closing
      delimiters, the output is made from exactly those pieces: the given
      title, trimmed and unquoted, and the given PDF target, trimmed. */
  lemma ReformatExact(config: Config, c: Citation)
    requires Unambiguous(c)
    ensures Reformat(config, Assemble(c)) == Some(Render(GetMode(config), CleanTitle(c.title), Strip(c.second.target)))
  {
    SearchExact(c);
  }

  // ---------------------------------------------------------------------
  // The processing step.

  /** A registered callback, known by the order it was registered in. */
  type CallbackId = nat

  /** One call `callback(original, reformatted)`, and whether it raised. */
  datatype Invocation = Invocation(callback: CallbackId, original: string, reformatted: string, raised: bool)

  /** A formatter's state: its configuration, the last clipboard text it
      examined or wrote (`_last_clipboard_content`), and its callbacks. */
  datatype Formatter = Formatter(config: Config, lastSeen: string, callbacks: seq<CallbackId>)

  /** How `set_clipboard_text` (clipboard.py:72-80) ends this time. */
  datatype WriteOutcome =
    | Writes         // every call succeeds
    | NothingWritten // `OpenClipboard` or `EmptyClipboard` raises: nothing changes
    | SetDataFails   // `SetClipboardData` raises after `EmptyClipboard` emptied it

  /** The operating-system clipboard as the formatter sees it: its text
      content, whether reading it succeeds, and how a write would end. */
  datatype Board = Board(content: Option<string>, readable: bool, write: WriteOutcome)

  /** `get_clipboard_text` (clipboard.py:48-64): the text, or nothing when
      there is none or the clipboard cannot be opened. */
  function ReadText(b: Board): (r: Option<string>)
    ensures r.Some? ==> b.readable && b.content == r
    ensures b.readable ==> r == b.content
  {
    if b.readable then b.content else None
  }

  /** `set_clipboard_text` (clipboard.py:66-80): a write that succeeds leaves
      the text on the clipboard; one that cannot open or empty the clipboard
      leaves it as it was; one whose `SetClipboardData` raises leaves it
      empty. The error is only reported. */
  function WriteText(b: Board, text: string): (r: Board)
    ensures b.write == Writes ==> ReadText(r) == if b.readable then Some(text) else None
    ensures b.write == NothingWritten ==> r == b
    ensures b.write == SetDataFails ==> ReadText(r) == None
    ensures r.readable == b.readable && r.write == b.write
  {
    match b.write
    case Writes => b.(content := Some(text))
    case NothingWritten => b
    case SetDataFails => b.(content := None)
  }

  /** `__init__` (clipboard.py:29-38). */
  function Init(config: Config): (f: Formatter)
    ensures f.config == config && f.lastSeen == "" && f.callbacks == []
  {
    Formatter(config, "", [])
  }

  /** `add_callback` (clipboard.py:40-46): the callback goes last. */
  function AddCallback(f: Formatter, cb: CallbackId): (r: Formatter)
    ensures r.callbacks == f.callbacks + [cb]
    ensures r.config == f.config && r.lastSeen == f.lastSeen
  {
    f.(callbacks := f.callbacks + [cb])
  }

  /** Registering several callbacks one after another. */
  function Register(f: Formatter, cbs: seq<CallbackId>): (r: Formatter)
    ensures r.callbacks == f.callbacks + cbs
    ensures r.config == f.config && r.lastSeen == f.lastSeen
    decreases |cbs|
  {
    if cbs == [] then f
    else
      assert f.callbacks + cbs == (f.callbacks + [cbs[0]]) + cbs[1..];
      Register(AddCallback(f, cbs[0]), cbs[1..])
  }

  /** The notification loop (clipboard.py:154-158): every callback is
      called, in order, with the same arguments; one that raises is reported
      and the loop goes on. */
  function Notify(cbs: seq<CallbackId>, original: string, reformatted: string, failing: set<CallbackId>): (log: seq<Invocation>)
    ensures |log| == |cbs|
    ensures forall i :: 0 <= i < |cbs| ==>
              log[i] == Invocation(cbs[i], original, reformatted, cbs[i] in failing)
    decreases |cbs|
  {
    if cbs == [] then []
    else [Invocation(cbs[0], original, reformatted, cbs[0] in failing)]
         + Notify(cbs[1..], original, reformatted, failing)
  }

  /** The result of one processing step. */
  datatype Step = Step(formatter: Formatter, board: Board, invocations: seq<Invocation>)

  /** `text` is new to `f`: non-empty and not the last text seen. */
  predicate IsNew(f: Formatter, text: Option<string>) {
    text.Some? && text.value != "" && text.value != f.lastSeen
  }

  /** `text` is rewritten to `out`: it is a citation, and the rewrite is
      non-empty and different from it (clipboard.py:142-147). */
  predicate Rewrites(f: Formatter, text: string, out: string) {
    MatchesZoteroFormat(text) && Reformat(f.config, text) == Some(out) && out != "" && out != text
  }

  /** `process_clipboard` (clipboard.py:123-158); `failing` names the
      callbacks that raise. */
  function ProcessClipboard(f: Formatter, b: Board, failing: set<CallbackId>): (r: Step)
    ensures r.formatter.config == f.config && r.formatter.callbacks == f.callbacks
    ensures !IsNew(f, ReadText(b)) ==> r == Step(f, b, [])
    ensures IsNew(f, ReadText(b)) ==>
              var text := ReadText(b).value;
              if exists out :: Rewrites(f, text, out) then
                var out := Reformat(f.config, text).value;
                && r.formatter.lastSeen == out
                && r.board == WriteText(b, out)
                && |r.invocations| == |f.callbacks|
                && forall i :: 0 <= i < |f.callbacks| ==>
                     r.invocations[i] == Invocation(f.callbacks[i], text, out, f.callbacks[i] in failing)
              else
                r == Step(f.(lastSeen := text), b, [])
  {
    var current := ReadText(b);
    if !IsNew(f, current) then Step(f, b, [])
    else
      var text := current.value;
      var seen := f.(lastSeen := text);
      if !MatchesZoteroFormat(text) then Step(seen, b, [])
      else
        var reformatted := Reformat(f.config, text);
        if reformatted.Some? && reformatted.value != "" && reformatted.value != text then
          var out := reformatted.value;
          assert Rewrites(f, text, out);
          Step(seen.(lastSeen := out), WriteText(b, out), Notify(f.callbacks, text, out, failing))
        else Step(seen, b, [])
  }

  /** Text that is not a citation is remembered, but the clipboard is left
      alone and no callback runs. */
  lemma NotACitationUntouched(f: Formatter, b: Board, failing: set<CallbackId>)
    requires IsNew(f, ReadText(b)) && !Matches(ReadText(b).value)
    ensures ProcessClipboard(f, b, failing) == Step(f.(lastSeen := ReadText(b).value), b, [])
  {
  }

  /** Idempotence: once a step has run, and any write it made opened and
      emptied the clipboard, the next step sees the text it left behind (or
      an empty clipboard) and does nothing. */
  lemma ProcessIdempotent(f: Formatter, b: Board, failing: set<CallbackId>, failing': set<CallbackId>)
    requires b.write != NothingWritten
    ensures var r := ProcessClipboard(f, b, failing);
      ProcessClipboard(r.formatter, r.board, failing') == Step(r.formatter, r.board, [])
  {
    var r := ProcessClipboard(f, b, failing);
    if IsNew(f, ReadText(b)) {
      var text := ReadText(b).value;
      if exists out :: Rewrites(f, text, out) {
        assert ReadText(r.board) == Some(r.formatter.lastSeen) || ReadText(r.board) == None;
      } else {
        assert ReadText(r.board) == Some(r.formatter.lastSeen);
      }
    }
  }

  /** A write that fails before the clipboard is emptied leaves the citation in
      place while the formatter remembers the rewrite, so every later poll
      finds it new again and repeats the same step, callbacks included. */
  lemma FailedWriteRepeats(f: Formatter, b: Board, failing: set<CallbackId>)
    requires b.write == NothingWritten
    ensures var r := ProcessClipboard(f, b, failing);
      ProcessClipboard(r.formatter, r.board, failing) == r
  {
  }

  /** Callbacks run in the order they were registered, all with the same
      arguments, and a callback that raises does not keep the later ones from
      running: a step either calls none of them or calls every one, in turn,
      with the text it found and the text it wrote. */
  lemma CallbacksInRegistrationOrder(config: Config, cbs: seq<CallbackId>, b: Board, failing: set<CallbackId>)
    ensures var r := ProcessClipboard(Register(Init(config), cbs), b, failing);
      || r.invocations == []
      || (&& ReadText(b).Some?
          && |r.invocations| == |cbs|
          && forall i :: 0 <= i < |cbs| ==>
               && r.invocations[i].callback == cbs[i]
               && r.invocations[i].original == ReadText(b).value
               && r.invocations[i].reformatted == r.formatter.lastSeen
               && r.invocations[i].raised == (cbs[i] in failing))
  {
  }
}
