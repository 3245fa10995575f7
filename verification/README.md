# zotclip formatter core in Dafny

zotclip watches the Windows clipboard for citations copied from Zotero, for example

    "loss-free balance routing" ([Team et al., 2025, p. 2](zotero://select/...)) ([pdf](zotero://open-pdf/...))

It rewrites each citation in place, in one of two output modes:

- plain-text mode: the bare title;
- markdown-reference mode: `[title](pdf-link)`.

This project models the `ClipboardFormatter` class and the mode preference it reads from `Config`, and proves properties of that model.

- `Text` (text.dfy) models Python's whitespace class. `\s` and `str.strip()` use the same code-point set. The module also models `str.strip()` and the `$` anchor. `$` also accepts one final newline, because the pattern is compiled without MULTILINE.
- `ZoteroPattern` (pattern.dfy) models the citation pattern in two ways, and the two are proved to agree:
  - as a grammar: a text matches when some `Citation` reading assembles to it;
  - as a backtracking search: it tries the alternatives in the order Python's regular-expression engine does. The greedy `"?` and `\s*` go longest first, and the lazy `+?` and `*?` go shortest first.

  Three results are proved:
  - the search succeeds exactly on matching texts;
  - it captures the shortest title any reading allows;
  - it recovers exactly the reading a text was built from, when no piece holds the delimiter that closes it and the title does not end in whitespace.
- `Quotes` (quotes.dfy) models the quote-stripping pattern. Its four openers and four closers are unpaired.
- `Preferences` (preferences.dfy) models the following:
  - `OutputMode` and the JSON record the mode lives in;
  - loading the record from a file that may be missing, unreadable or malformed;
  - `get_mode`, `set_mode` with its save, and `get_mode_display_name`.
- `ClipboardFormatter` (formatter.dfy) models the following:
  - `matches_zotero_format` and `reformat`;
  - callback registration;
  - `process_clipboard`, over a clipboard that may be unreadable or unwritable and callbacks that may raise.
- `Examples` (examples.dfy) replays the inputs of test_pattern.py and a few further cases through the model.

In these places the code decides, whatever its comments suggest:
- The title class is `[^"\n]`, so a title never holds a newline.
- An opening quote of one kind may be closed by a quote of another kind.
- `$` accepts a final newline.
- test_pattern.py:11 is labelled as the curly-quote case but holds the same straight-quoted text as line 8. `Examples.CurlyExample` covers curly quotes separately.

## Model

| member | source | states |
|---|---|---|
| Text.Strip | clipboard.py:106-107 | the result has no whitespace at either end, and it is the part of the input between a leading and a trailing run of whitespace |
| Text.StripUnique | clipboard.py:106-107 | any whitespace around a trimmed core strips to exactly that core |
| Text.IsSpaceExactly | clipboard.py:21 | the whitespace class `IsSpace`, used by `\s` and by `str.strip()`, holds exactly the 29 code points `str.isspace()` accepts |
| ZoteroPattern.Search | clipboard.py:20-23 | any reading the search returns obeys every piece's character class and assembles back to the text |
| ZoteroPattern.SearchComplete | clipboard.py:20-23 | the search succeeds if and only if the text matches the anchored pattern |
| ZoteroPattern.SearchShortestTitle | clipboard.py:21 | the lazy title group is no longer than the title of any reading of the text |
| ZoteroPattern.SearchExact | clipboard.py:21 | a citation whose pieces hold none of their closing delimiters, and whose title does not end in whitespace, is recovered exactly, so both groups are the ones it was built from |
| ZoteroPattern.MatchEnding | clipboard.py:21 | every matching text ends with `))`, or with `))` and one newline |
| Quotes.QuoteMatch | clipboard.py:27 | the pattern returns a group exactly when some group fits the opener, middle, closer and end shape |
| Quotes.StripQuotes | clipboard.py:110-112 | whenever the quote pattern matches the title, the title is replaced by a middle that the pattern brackets; when it does not match, the title is kept |
| Quotes.StripQuotesNewlineFree | clipboard.py:27 | a newline-free title loses its quotes if and only if it is at least three characters long, starts with an opener and ends with a closer; exactly the first and last character go |
| Quotes.OneLayerOnly | clipboard.py:110-112 | only one layer of quotes is removed |
| Quotes.MixedPairStripped | clipboard.py:27 | a curly single opener with a straight single closer is stripped; a lone opener is not |
| Preferences.ModeOf | config.py:56 | a value names a mode exactly when it is that mode's token string |
| Preferences.TokenRoundTrip | config.py:9-12 | every mode read back from its stored token is the same mode |
| Preferences.LoadAsWritten | config.py:30-42 | as written: a missing, unreadable or non-JSON file gives the default record; a parsed file gives its value, object or not; invalid UTF-8 raises |
| Preferences.GetModeAsWritten | config.py:52-58 | as written: `get_mode` raises exactly when the record is not a JSON object |
| Preferences.NotUtf8Raises | config.py:34-37 | a file that is not UTF-8 makes loading raise `UnicodeDecodeError` |
| Preferences.NonObjectRaises | config.py:35 | a file holding `[]` loads, and `get_mode` then raises `AttributeError` |
| Preferences.Load | config.py:30-42 | as intended: the loaded record is the file's object wherever the as-written loader yields one, and the default record otherwise |
| Preferences.NewConfig | config.py:21-24 | a missing file gives the default record; a file holding an object gives that object |
| Preferences.GetMode | config.py:52-58 | markdown mode if and only if the stored `mode` is the markdown token; plain text otherwise, including a missing key or an unknown value |
| Preferences.LoadedMode | config.py:30-42 | a fresh configuration is in markdown mode if and only if the file holds an object whose `mode` is the markdown token |
| Preferences.LoadedModeAgrees | config.py:30-58 | wherever the as-written store works, the intended one reads the same mode |
| Preferences.SetMode | config.py:62 | the mode reads back as the one set; the key `mode` is added and every other entry is unchanged |
| Preferences.Save | config.py:44-50 | a successful save leaves the file holding the record; a failed one leaves the file as it was |
| Preferences.SetModeAndSave | config.py:60-63 | the session reads the new mode; only the `mode` entry changes; a successful save leaves a file that loads back as exactly the new configuration, and a failed one leaves the file as it was |
| Preferences.SetModePersists | config.py:60-63 | the session reads the new mode whether or not the save succeeded; after a successful save a restart reads it too |
| Preferences.DisplayName | config.py:65-71 | each mode gets its own display name, and the name tells which mode is active |
| ClipboardFormatter.MatchesZoteroFormat | clipboard.py:82-91 | true if and only if the text matches the citation pattern |
| ClipboardFormatter.CleanTitle | clipboard.py:106-112 | the title is trimmed; then, if it is at least three characters long, starts with an opener and ends with a closer, those two characters are removed; the result stays in the title class |
| ClipboardFormatter.Render | clipboard.py:114-119 | plain-text mode gives the title alone; markdown mode gives `[`, the title, `](`, the link and `)`, in that order and nothing else |
| ClipboardFormatter.Reformat | clipboard.py:93-104 | the result is None if and only if the text does not match the pattern |
| ClipboardFormatter.ReformatAgreesWithMatches | clipboard.py:82-104 | `reformat` produces a result exactly for the texts `matches_zotero_format` accepts |
| ClipboardFormatter.PlainTextOutput | clipboard.py:114-117 | in plain-text mode a citation becomes its cleaned title, with no double quote and no newline in it |
| ClipboardFormatter.MarkdownOutput | clipboard.py:118-119 | in markdown mode a citation becomes `[title](link)`; the link is the trimmed second group |
| ClipboardFormatter.ReformatExact | clipboard.py:102-119 | an unambiguous citation is rendered from its own title and PDF target |
| ClipboardFormatter.ReadText | clipboard.py:48-64 | a readable clipboard gives its content; an unreadable one gives nothing |
| ClipboardFormatter.WriteText | clipboard.py:66-80 | a successful write leaves the text on the clipboard; one that cannot open or empty the clipboard changes nothing; one whose `SetClipboardData` raises leaves the clipboard empty |
| ClipboardFormatter.Init | clipboard.py:29-38 | a new formatter has the given configuration, nothing seen yet and no callbacks |
| ClipboardFormatter.AddCallback | clipboard.py:40-46 | the callback is appended after the existing ones; nothing else changes |
| ClipboardFormatter.Register | clipboard.py:40-46 | registering several callbacks appends them in order |
| ClipboardFormatter.Notify | clipboard.py:153-158 | every callback is called once, in order, with the same original and rewritten text; each raise is recorded and does not stop the loop |
| ClipboardFormatter.ProcessClipboard | clipboard.py:123-158 | empty or already-seen text changes nothing; new text is remembered; a citation whose rewrite is non-empty and different is written back, remembered and announced to every callback; other text is only remembered |
| ClipboardFormatter.NotACitationUntouched | clipboard.py:135-142 | new text that is not a citation is remembered, and the clipboard and callbacks are untouched |
| ClipboardFormatter.ProcessIdempotent | clipboard.py:130-149 | after a step whose write opened and emptied the clipboard, the next step does nothing, whether it finds the rewritten text or an emptied clipboard |
| ClipboardFormatter.FailedWriteRepeats | clipboard.py:130-149 | when the write fails before the clipboard is emptied (`OpenClipboard` or `EmptyClipboard` raises), the citation stays while the rewrite is remembered, so the next step repeats the same rewrite and the same callbacks |
| ClipboardFormatter.CallbacksInRegistrationOrder | clipboard.py:153-158 | a step calls no callback, or calls every registered one in registration order with the text it found and the text it wrote; a raise stops none of the later ones |
| Examples.QuotedExample | test_pattern.py:8-11 | the quoted test citation becomes its title, or the markdown link to its PDF target |
| Examples.UnspacedExample | test_pattern.py:14 | the same citation without spaces gives the same output |
| Examples.UnquotedExample | test_pattern.py:17 | the same citation without quotes gives the same output |
| Examples.CurlyExample | clipboard.py:27 | a title in curly double quotes is captured with its quotes and loses them when cleaned |
| Examples.NotCitations | test_pattern.py:20-21 | plain text and a single markdown link are not citations |
| Examples.NestedQuotesExample | clipboard.py:110-112 | straight double quotes around single-quoted text: the pattern takes the double quotes, cleaning takes the single ones |
| Examples.ProcessExample | clipboard.py:123-158 | a copied citation is rewritten once, both callbacks run even though the first raises, and the next step does nothing |

## Left out

- The win32 clipboard calls (clipboard.py:48-80) are abstracted as a `Board` value. It holds the text, whether reading succeeds, and how a write ends: it succeeds, it cannot open or empty the clipboard, or `SetClipboardData` raises after the clipboard was emptied. `get_clipboard_text` gives None when there is no text.
- ClipboardFormatter.ProcessIdempotent: promised only for a write that opened and emptied the clipboard. When `OpenClipboard` or `EmptyClipboard` raises, the source really is not idempotent: `FailedWriteRepeats` shows the next poll repeats the rewrite and the callbacks.
- ClipboardFormatter.Reformat: the formatter holds the intended `Config`, whose record is always a JSON object, and holds it as a value. Two things follow. First, in the program as written, `reformat` calls `get_mode` (clipboard.py:114, config.py:54); on a record that is not an object this raises `AttributeError` after `_last_clipboard_content` was already updated (clipboard.py:135). The model has no such path. The start-up call `get_mode_display_name` (main.py:206) raises the same error before any `process_clipboard` can run, and `Preferences.NonObjectRaises` states that error. Second, the tray and the formatter share one `Config` instance (main.py:48-49), so a `set_mode` from the menu changes the mode the next `process_clipboard` reads. In the model the caller passes the updated `Config` into the `Formatter` itself.
- The error message printed on a failed write or a raising callback is left out, and so are all `DEBUG` prints (clipboard.py:10-11, 127-151).
- The `_listening` field (clipboard.py:38) is left out: it is set but never read by the formatter.
- Callbacks are opaque: a `CallbackId` and a set of the ids that raise. What a callback does is not part of this model.
- main.py (the tray UI, the keyboard hook, the background thread and its sleep) is not part of this model.
- JSON parsing and `json.dump` are left out. A file is a `ConfigFile` value: missing, unreadable, not UTF-8, not JSON, or a parsed value.
- JSON numbers are kept as integers. The model only compares values with mode tokens, so this changes nothing it states.
- The `APPDATA` path and the directory creation (config.py:18-28) are left out, because they are operating-system effects.
- Preferences.Save: a failed write that has already truncated the file is modelled as leaving the file unchanged.
- Dafny's `char` excludes the surrogate code points that a Python `str` may hold, so texts holding lone surrogates are not modelled.
- The final `return None` of `reformat` (clipboard.py:121) cannot be reached, because `OutputMode` has only two members. The model has no such branch.
- test_pattern.py's own copy of the quote pattern (line 31) is not the formatter's pattern and is left out. Only its test inputs are used.

## Findings

| source | as written | input that shows it | evidently intended | confidence | as-written member | corrected member |
|---|---|---|---|---|---|---|
| config.py:34-37 | the file is read as UTF-8, but only `JSONDecodeError` and `IOError` are caught, so a `UnicodeDecodeError` escapes `Config()` | a config.json holding the byte 0xFF | an unusable file falls back to the default record | not executed | Preferences.NotUtf8Raises | Preferences.Load |
| config.py:35, 54 | any JSON value becomes the record, and `get_mode` calls `.get` on it | a config.json holding `[]` | a file that does not hold an object falls back to the default record, and `get_mode` never raises | not executed | Preferences.NonObjectRaises | Preferences.LoadedMode |
