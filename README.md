# Marker Markdown converter and static-server helpers, modelled in Dafny

This project models the core of the `marker` Markdown-to-HTML library
(`marker/src/marker.c`, `marker/src/marker.h`) and proves properties of it.
It also models the extension-to-MIME lookups of the two static file servers
that ship with it (`iris_get_mime_type` in `iris/src/iris.c` and
`get_mime_type` in `src/main.c`) and the older server's path filter
(`sanitize_path` in `src/main.c`).

The model keeps the converter's own shape:

- the growable output buffer is a class whose methods append in place
  (`OutputBuffer.Buffer`);
- the parser is a class holding its configuration, its reference-definition
  table and its reusable line buffer (`Parsers.Parser`);
- the block pass of `marker_parse` is a line loop (`BlockEngine.MarkerParse`).
  Each line is copied into the parser's line array and trimmed in place.
  The loop is proved against a functional walk over the document
  (`BlockSyntax.Steps`, `BlockSyntax.Document`);
- the inline pass of `parse_inline_content` is a character loop
  (`InlineEngine.ParseInlineContent`). It is proved against a recursive
  rendering function (`InlineSyntax.Render`) built on a one-step classifier
  (`InlineSyntax.Scan`). That classifier follows the C loop's priority
  order: escapes, emphasis, strikethrough, code spans, images, links,
  autolinks, inline HTML, line breaks and ordinary characters;
- `marker_escape_html` is a loop writing into the caller's array
  (`Escaping.EscapeInto`);
- `marker_to_html`, `marker_parse_inline` and `marker_validate` are methods
  over the caller's arrays and buffers (`Converter`);
- the MIME lookups and `sanitize_path` are pure functions (`Mime`,
  `StaticServer`).

Strings are `seq<char>` read as C strings: `Chars.At` gives the NUL terminator
past the end, and `Chars.CLength` is `strlen`.

Files:

- `results.dfy`: result codes and messages.
- `config.dfy`: configuration.
- `chars.dfy`: character classes, `strcasecmp`, `strlen`, trimming.
- `buffer.dfy`: the output buffer.
- `escape.dfy`: HTML escaping.
- `reflinks.dfy` and `parser.dfy`: reference definitions and the parser object.
- `inline_spec.dfy`, `inline_engine.dfy`, `inline_props.dfy` and `inline_constructs.dfy`: the inline pass.
- `blocks_spec.dfy` and `blocks_engine.dfy`: the block pass.
- `document.dfy`: the simplified API.
- `mime.dfy`: the MIME tables.
- `static_server.dfy`: the path filter.

## Model

| member | source | states |
|---|---|---|
| Results.FromCode | marker/src/marker.h:19-28 | an integer names an enumerator exactly when it lies in -7..0, and then that enumerator carries it |
| Results.CodesRoundTrip | marker/src/marker.h:19-28 | every result code lies in -7..0, only OK is 0, and reading a code back gives the same enumerator |
| Results.ErrorStringDistinct | marker/src/marker.c:61-82 | exactly the integers outside -7..0 get "Unknown error", and two different codes never share a message |
| Results.ErrorStringExamples | marker/src/marker.c:61-82 | OK reads "Success", NULL_POINTER starts with "Null pointer", and an unknown integer reads "Unknown error" |
| Configuration.Defaults | marker/src/marker.c:85-99 | every feature switch is on except smart quotes and hard line breaks, with nesting depth 32 and initial buffer size 4096 |
| OutputBuffer.Doubled | marker/src/marker.c:143-146 | repeated doubling never shrinks a capacity |
| OutputBuffer.Buffer.constructor | marker/src/marker.c:102-121 | a new buffer is empty, with the requested capacity, or 4096 when 0 is requested |
| OutputBuffer.Buffer.EnsureCapacity | marker/src/marker.c:136-155 | the contents are kept; the capacity is unchanged when it already suffices, otherwise it is doubled to at least `needed` and less than twice `needed` |
| OutputBuffer.Buffer.Append | marker/src/marker.c:157-181 | the new contents are the old ones followed by the text; the capacity only grows; appending nothing changes nothing |
| OutputBuffer.BufferSize | marker/src/marker.c:134 | the length of the contents, and 0 for a NULL buffer |
| OutputBuffer.BufferData | marker/src/marker.c:130-132 | NULL exactly for a NULL buffer, otherwise the contents followed by a terminator |
| Chars.Fold | marker/src/marker.c:32-42 | folding keeps the length |
| Chars.CaseCompareZeroIff | marker/src/marker.c:32-42 | for C strings, `strcasecmp` is 0 exactly when both strings fold to the same text |
| Chars.CaseCompareExample | marker/src/marker.c:32-42 | "HTML" equals "html" ignoring case, and "html5" does not |
| Chars.CLength | marker/src/marker.c:357 | `strlen` stops at the first NUL: every earlier character is not NUL |
| Chars.ScanTo | marker/src/marker.c:1502 | the scan stops at the sought character or the terminator, and passes neither before |
| Chars.ScanToFirst | marker/src/marker.c:1502 | the scan answers the first position holding the character or the terminator |
| Chars.ScanToMissing | marker/src/marker.c:1665 | a scan that runs off the end of a C string means the character does not occur |
| Chars.HasCharIff | marker/src/marker.c:1665 | `strchr` finds a character in a C string exactly when it occurs in it |
| Chars.LastIndexOf | iris/src/iris.c:32 | `strrchr` answers a position holding the character with none after it, or nothing when it does not occur |
| Chars.SkipSpace | marker/src/marker.c:348-350 | the leading loop of `trim_whitespace` stops at the first non-whitespace and passes only whitespace |
| Chars.BackSpace | marker/src/marker.c:357-360 | the trailing loop stops after the last non-whitespace and passes only whitespace |
| Chars.TrimIsInfix | marker/src/marker.c:344-362 | the trimmed text is an infix of the input with only whitespace cut from both ends, and it neither starts nor ends with whitespace |
| Chars.TrimExact | marker/src/marker.c:344-362 | the trimmed text is `s[i..j]` whenever everything outside is whitespace and the infix has no whitespace at either end |
| Chars.TrimUnchanged | marker/src/marker.c:344-362 | a text without whitespace at either end is left unchanged |
| Chars.TrimKeepsAbsent | marker/src/marker.c:344-362 | trimming introduces no character |
| Chars.TrimIdempotent | marker/src/marker.c:344-362 | trimming twice is trimming once |
| Chars.TrimAllWhitespace | marker/src/marker.c:344-362 | a whitespace-only text trims to empty |
| Escaping.EscapeConcat | marker/src/marker.c:315-337 | escaping distributes over concatenation |
| Escaping.EscapeSnoc | marker/src/marker.c:289-309 | escaping one more character appends that character's escape |
| Escaping.EscapeCharShape | marker/src/marker.c:46-56 | a character is copied, or becomes an entity of 4 to 6 characters starting with `&`; no escape holds `<`, `>`, `"` or `'` |
| Escaping.EscapeLength | marker/src/marker.c:46-56 | escaping never shortens, and keeps the length exactly when no character has an entity |
| Escaping.EscapeIdentity | marker/src/marker.c:46-56 | escaping leaves a text unchanged exactly when none of its characters has an entity |
| Escaping.EscapeHasNoMarkup | marker/src/marker.c:46-56 | escaped text contains none of `<`, `>`, `"` and `'` |
| Escaping.UnescapeOne | marker/src/marker.c:46-56 | decoding the escape of one character gives that character back, whatever follows |
| Escaping.UnescapeEscape | marker/src/marker.c:46-56 | decoding the entities of an escaped text gives the original back |
| Escaping.EscapeNotIdempotent | marker/src/marker.c:46-56 | `&` escapes to `&amp;`, and escaping again gives `&amp;amp;` |
| Escaping.EscapeFitsRefusesExactFit | marker/src/marker.c:295-297 | "&" escapes to 5 characters, which fit with the terminator in 6 slots, yet the as-written bound refuses them |
| Escaping.EscapeInto | marker/src/marker.c:282-313 | NULL_POINTER exactly for missing arguments or size 0, with the array untouched; otherwise OK exactly when the text fits under the as-written bound, else BUFFER_TOO_SMALL; on OK the array holds the escaped text and a terminator |
| Escaping.StrCopy | marker/src/marker.c:298 | `strcpy` writes the entity and a terminator and keeps what came before |
| Escaping.EscapeFitsStep | marker/src/marker.c:289-309 | each character the loop writes keeps the written prefix within the as-written bound |
| Escaping.EscapeRefusedAt | marker/src/marker.c:295-297 | once the next character does not fit, the whole text is refused |
| Escaping.EscapeIntoExact | marker/src/marker.c:282-313 | the corrected loop: OK exactly when the escaped text and its terminator fit, and then the array holds them |
| Escaping.EscapeTooLongAt | marker/src/marker.c:289-309 | the escaped text is at least as long as any escaped prefix plus the next character's escape |
| Escaping.EscapeExtend | marker/src/marker.c:289-309 | writing one more escaped character extends the escaped prefix |
| Escaping.AppendEscaped | marker/src/marker.c:315-337 | the buffer gains exactly the escaped text |
| ReferenceLinks.Find | marker/src/marker.c:267-280 | a found definition is the first in the chain whose label matches ignoring case; nothing is found exactly when no label matches |
| ReferenceLinks.FindAfterAdd | marker/src/marker.c:219-249 | a definition added at the head shadows older ones with the same name up to case, and leaves other names' lookups as they were |
| ReferenceLinks.FindIgnoresCase | marker/src/marker.c:267-280 | a definition stored as "Foo" is found as "FOO" |
| Parsers.Parser.constructor | marker/src/marker.c:183-207 | a NULL configuration means the defaults; the table starts empty; the line buffer holds 4096 characters |
| Parsers.AddReferenceLink | marker/src/marker.c:219-249 | NULL_POINTER exactly for a missing parser, name or url, with the table unchanged; otherwise the new definition is at the head of the table |
| Parsers.ClearReferenceLinks | marker/src/marker.c:251-265 | the table is empty afterwards |
| Parsers.FindReferenceLink | marker/src/marker.c:267-280 | NULL arguments find nothing; otherwise the walk answers the first matching definition |
| InlineSyntax.Attr | marker/src/marker.c:1117-1125 | text is escaped when escaping is on and copied when it is off |
| InlineSyntax.RunAtInside | marker/src/marker.c:371-398 | a run of markers lies inside the text and holds only the marker |
| InlineSyntax.EmphasisSearch | marker/src/marker.c:371-398 | the answer is the first closer at or after the start: a run of at least `count` markers after a non-space; no answer means there is no closer |
| InlineSyntax.Emphasis | marker/src/marker.c:983-1019 | emphasis is a span whose inner range lies strictly between the opener and the position after the closer (which span, for any content, is stated by `InlineConstructs.EmphasisWraps`) |
| InlineSyntax.StrikeSearch | marker/src/marker.c:1024-1026 | the answer is the first `~~` at or after the start |
| InlineSyntax.Strikethrough | marker/src/marker.c:1022-1045 | strikethrough only happens when enabled, and is a span inside its markers (the `del` span for any content is stated by `InlineConstructs.StrikeWraps`) |
| InlineSyntax.TickRun | marker/src/marker.c:892-896 | the run holds only backticks, is not followed by one, and is empty exactly when no backtick starts it |
| InlineSyntax.TickSearch | marker/src/marker.c:902-912 | the answer is the first place where `n` backticks start |
| InlineSyntax.CodeSpan | marker/src/marker.c:886-960 | a code span is a single piece of HTML and moves forward; its content is always escaped, whatever `escape_html` says, after one space is dropped at each end (the content is stated by `InlineConstructs.CodeSpanEscapes` and `InlineConstructs.CodeSpanTrimsOneSpace`) |
| InlineSyntax.SplitTitle | marker/src/marker.c:451-462 | without a quote the destination is all URL and there is no title; the URL never holds a quote |
| InlineSyntax.LinkTextEnd | marker/src/marker.c:408-421 | the link text ends at a `]` or the terminator, passing no terminator; brackets nest (stated by `InlineConstructs.LinkTextEndBalance`) |
| InlineSyntax.FullReference | marker/src/marker.c:526-617 | a resolved `[t][l]` continues after the link text |
| InlineSyntax.InlineLink | marker/src/marker.c:436-527 | an inline link's text is the bracketed text and the loop continues after it |
| InlineSyntax.ReferenceLink | marker/src/marker.c:529-692 | a reference link's text is the bracketed text and the loop continues after it |
| InlineSyntax.Link | marker/src/marker.c:400-692 | a link moves forward, and its text is shorter than the rest of the input |
| InlineSyntax.Image | marker/src/marker.c:694-812 | an image is one picture step that moves forward |
| InlineSyntax.AutolinkEnd | marker/src/marker.c:820-823 | the scan stops at the first `>`, space, newline or terminator |
| InlineSyntax.Autolink | marker/src/marker.c:814-884 | autolinks only happen when enabled, and move forward (the link written for any web or mail address is stated by `InlineConstructs.AutolinkWeb` and `InlineConstructs.AutolinkMail`) |
| InlineSyntax.InlineHtml | marker/src/marker.c:1083-1099 | inline HTML only happens when enabled; it copies the text from the `<` to the first `>` after it, with no `>` or terminator in between; when enabled at a `<` and refused, a terminator comes before every later `>` |
| InlineSyntax.Scan | marker/src/marker.c:962-1130 | every step of the loop moves forward; nested spans start after the opener; a link's text is shorter than the rest |
| InlineSyntax.RenderLeaf | marker/src/marker.c:1116-1125 | a leaf step writes its HTML and the rest of the rendering follows it |
| InlineSyntax.RenderPicture | marker/src/marker.c:1056-1063 | an image step writes the image tag and the rest follows |
| InlineSyntax.RenderSpan | marker/src/marker.c:983-1045 | a span step wraps the rendering of its inner range in its tag |
| InlineSyntax.RenderAnchor | marker/src/marker.c:1065-1072 | a link step wraps the rendering of the copied link text in the link tags |
| InlineEngine.ParseInlineContent | marker/src/marker.c:962-1132 | the buffer gains exactly the rendering of the text from `pos` to `end` or the terminator; the loop stops there |
| InlineEngine.EmitStep | marker/src/marker.c:968-1128 | one iteration appends what the classifier decides at the position and moves strictly forward, keeping the rendering invariant |
| InlineEngine.EmitSpan | marker/src/marker.c:983-1045 | emphasis and strikethrough write their tags around a nested pass and keep the rendering invariant |
| InlineEngine.EmitAnchor | marker/src/marker.c:400-692 | a link writes its opening tag, a nested pass over its text and `</a>`, keeping the rendering invariant |
| InlineProperties.ScanOrdinary | marker/src/marker.c:1116-1125 | an ordinary character is written as itself, escaped when escaping is on |
| InlineProperties.RenderOrdinaryText | marker/src/marker.c:1116-1125 | text without special characters renders as itself, escaped when escaping is on |
| InlineProperties.AttrConcat | marker/src/marker.c:1116-1125 | writing text in two parts writes both parts |
| InlineProperties.UnmatchedEmphasisIsLiteral | marker/src/marker.c:983-1019 | an emphasis marker without a closer is written literally |
| InlineProperties.UnclosedBracketIsLiteral | marker/src/marker.c:408-421 | a `[` never closed is written literally |
| InlineProperties.ScanBracket | marker/src/marker.c:1065-1072 | at `[` the loop takes a link or writes the bracket |
| InlineProperties.ScanInlineLink | marker/src/marker.c:436-527 | a closed link text followed by `(` is the inline form |
| InlineProperties.LinkByReference | marker/src/marker.c:529-692 | a closed link text not followed by `(` is a reference form |
| InlineProperties.ScanAngle | marker/src/marker.c:1074-1099 | at `<` the loop tries an autolink, then inline HTML, then writes the character |
| InlineProperties.LinkTextEndPlain | marker/src/marker.c:408-421 | over text without brackets the scan stops at the following `]` |
| InlineProperties.ShortcutShape | marker/src/marker.c:616-692 | in `[t]` the link text is `t` and its scan stops at the `]` |
| InlineProperties.ShortcutReferenceResolves | marker/src/marker.c:616-692 | `[t]` naming a stored definition becomes a link to it with text `t` |
| InlineProperties.UnresolvedShortcutIsLiteral | marker/src/marker.c:616-692 | `[t]` naming nothing leaves the bracket literal |
| InlineProperties.StarEmphasisExample | marker/tests/test_marker.c:28-73 | `*x*` renders as `<em>x</em>` |
| InlineProperties.StrongEmphasisExample | marker/tests/test_marker.c:28-73 | `**x**` renders as `<strong>x</strong>` |
| InlineProperties.EscapedPunctuationExample | marker/src/marker.c:970-980 | `\*x\*` renders as `*x*`, with no emphasis |
| InlineProperties.EscapeExample | marker/tests/test_marker.c:249-280 | special characters in plain text become entities |
| InlineProperties.CodeSpanExample | marker/src/marker.c:886-960 | a code span escapes its content even with escaping off |
| InlineProperties.DoubleTickExample | marker/src/marker.c:886-960 | a double-tick span closes at the next double run and drops one space at each end |
| InlineProperties.DoubleTickSpan | marker/src/marker.c:914-930 | the code span of `` `` x `` `` holds `x` |
| InlineProperties.StrikethroughExample | marker/src/marker.c:1022-1045 | `~~x~~` renders as `<del>x</del>` when enabled |
| InlineProperties.StrikethroughDisabledExample | marker/src/marker.c:1022 | `~~x~~` is written as it stands when disabled |
| InlineProperties.TrimTrailingSpace | marker/src/marker.c:344-362 | a trimmed text followed by a space trims back to itself |
| InlineProperties.SplitTitleQuoted | marker/src/marker.c:451-462 | `u "t"` splits into URL `u` and title `t` |
| InlineProperties.InlineOpenTitled | marker/src/marker.c:464-501 | `[t](u "T")` opens with `href` and `title` |
| InlineProperties.InlineOpenEmptyTitle | marker/src/marker.c:481-497 | an empty title writes no `title` attribute |
| InlineProperties.InlineOpenUntitled | marker/src/marker.c:464-501 | without a quote the link has only `href` |
| InlineProperties.ImageTagUntitled | marker/src/marker.c:756-805 | without a quote the image has only `src` and `alt` |
| InlineProperties.InlineLinkScan | marker/src/marker.c:436-527 | `[t](dest)` is one link step whose text is `t`, continuing after `)` |
| InlineProperties.ScanImage | marker/src/marker.c:1056-1063 | at `![` that starts an image the loop takes the image |
| InlineProperties.ImageScan | marker/src/marker.c:694-812 | `![a](dest)` is one image step; the alt text is copied, not rendered |
| InlineProperties.AutolinkWebMatch | marker/src/marker.c:814-884 | `<http://x>` matches as a web autolink |
| InlineProperties.AutolinkMailMatch | marker/src/marker.c:814-884 | `<a@b>` matches as a mail autolink |
| InlineProperties.AutolinkExamples | marker/tests/test_marker.c:224-247 | `<http://x>` links to itself and `<a@b>` becomes a `mailto:` link |
| InlineConstructs.EmphasisWraps | marker/src/marker.c:983-1019 | for any content `t` without the marker, not ending in whitespace: one marker (`*t*`, `_t_`) gives an `em` span over `t`, two markers (`**t**`, `__t__`) a `strong` span, and the loop goes on after the closing run |
| InlineConstructs.EmphasisSearchFirst | marker/src/marker.c:371-398 | the closer search answers the first closer when nothing before it is one |
| InlineConstructs.StrikeWraps | marker/src/marker.c:1022-1045 | with strikethrough on, `~~t~~` for any `t` without a tilde gives a `del` span over `t`, and the loop goes on after the closing pair |
| InlineConstructs.StrikeSearchFirst | marker/src/marker.c:1024-1026 | the `~~` search answers the first pair of tildes |
| InlineConstructs.CodeSpanEscapes | marker/src/marker.c:886-960 | `` `c` `` for any `c` without a backtick and without a space at either end gives `<code>`, `c` escaped, `</code>`, whatever `escape_html` says |
| InlineConstructs.CodeSpanTrimsOneSpace | marker/src/marker.c:918-927 | `` ` c ` `` loses exactly one space at each end: the content is `c`, escaped, whatever `c` starts or ends with |
| InlineConstructs.TickSearchFirst | marker/src/marker.c:902-912 | the search for one closing backtick answers the first backtick |
| InlineConstructs.AutolinkWeb | marker/src/marker.c:814-884 | with autolinks on, `<x>` for any web address `x` (`http://`, `https://` or `ftp://`) without `@`, `>`, space or newline links to `x` with `x` as its text, unescaped |
| InlineConstructs.AutolinkMail | marker/src/marker.c:814-884 | with autolinks on, `<x>` for any `x` holding `@` and no `>`, space or newline is a `mailto:x` link with `x` as its text |
| InlineConstructs.AutolinkRefused | marker/src/marker.c:836-840 | `<x>` whose content holds no `@` and starts with none of the three schemes is never an autolink |
| InlineConstructs.InlineHtmlCopies | marker/src/marker.c:1083-1099 | with inline HTML on, `<x>` for any `x` without `>` that is not an autolink is copied as it stands, up to and including the first `>` |
| InlineConstructs.LinkTextEndBalance | marker/src/marker.c:408-421 | the link text ends at the first `]` that brings the bracket balance back to zero: the balance never goes negative before it, every earlier `]` leaves it positive, and it is zero at the closing `]` |
| InlineConstructs.LinkTextEndSkip | marker/src/marker.c:411-420 | the scan passes over bracket-free text at any depth |
| InlineConstructs.InnerPair | marker/src/marker.c:408-421 | a pair `[b]` with a bracket-free `b` is passed over as a whole at any depth |
| InlineConstructs.LinkTextEndNested | marker/src/marker.c:408-421 | in `[a[b]c]` the inner pair nests, and the link text is `a[b]c`, up to the outer `]` |
| InlineConstructs.NestedInlineLinkScan | marker/src/marker.c:400-527 | `[a[b]c](dest)` is one link to `dest` whose text is `a[b]c`, brackets included |
| InlineConstructs.LinkScanOf | marker/src/marker.c:436-527 | `[t](dest)` is one link step whenever the link-text scan closes right after `t` |
| InlineProperties.FullReferenceLookup | marker/src/marker.c:529-614 | a closed label `[l]` is looked up trimmed; `[]` looks up the link text |
| InlineProperties.ReferenceLinkResolved | marker/src/marker.c:529-614 | a resolving reference links to the stored definition with the link text |
| InlineProperties.ReferenceLinkShortcut | marker/src/marker.c:616-692 | an unresolved `[t][l]` falls back to the shortcut `[t]` |
| InlineProperties.FallBackAt | marker/src/marker.c:529-692 | after `[t][l]` with an unknown label, the reference step links `[t]` alone when `t` names a definition |
| InlineProperties.CollapsedLabel | marker/src/marker.c:529-614 | `[t][]` looks up the trimmed link text and, when it resolves, consumes both bracket pairs |
| InlineProperties.FullReferenceLabel | marker/src/marker.c:529-614 | `[t][l]` resolves exactly when the trimmed `l` names a definition, consuming both bracket pairs |
| InlineProperties.CollapsedReferenceResolves | marker/src/marker.c:529-614 | `[t][]` looks up `t` and consumes both pairs |
| InlineProperties.FullReferenceFallsBack | marker/src/marker.c:529-692 | an unresolved `[t][l]` with `t` defined consumes only `[t]` |
| BlockSyntax.DigitRun | marker/src/marker.c:1142-1152 | the run holds only digits and stops at a non-digit |
| BlockSyntax.RuleScanMarked | marker/src/marker.c:1154-1172 | once a marker is fixed, the scan accepts exactly a rest of that marker and whitespace with at least three markers in all |
| BlockSyntax.RuleScanFresh | marker/src/marker.c:1154-1172 | before any marker, the scan accepts exactly a rule drawn with one of `-`, `*`, `_` |
| BlockSyntax.HorizontalRuleIff | marker/src/marker.c:1154-1172 | a line is a rule exactly when it holds one of `-`, `*`, `_` at least three times and otherwise only whitespace |
| BlockSyntax.SeparatorScanIff | marker/src/marker.c:1174-1189 | the separator scan accepts exactly a rest of pipes, dashes, spaces and colons that completes a pipe and a dash |
| BlockSyntax.TableSeparatorIff | marker/src/marker.c:1174-1189 | a separator row holds only pipes, dashes, spaces and colons, with at least one pipe and one dash |
| BlockSyntax.HashRun | marker/src/marker.c:1196-1199 | the run of `#` stops at six or at a non-`#` |
| BlockSyntax.HeadingLevel | marker/src/marker.c:1196-1199 | the level counts the leading `#`, at most six, and is at least one for a header line |
| BlockSyntax.HeadingLevelCount | marker/src/marker.c:1196-1199 | a line opening with `k` marks has level `k`, capped at six |
| BlockSyntax.SkipSpaces | marker/src/marker.c:1202-1205 | the scan passes only spaces and stops at a non-space |
| BlockSyntax.RowStart | marker/src/marker.c:1352-1355 | the row starts at the first character that is neither whitespace nor a pipe |
| BlockSyntax.CellEnd | marker/src/marker.c:1368-1374 | a cell ends at the next pipe or the end of the line |
| BlockSyntax.NextCell | marker/src/marker.c:1410-1416 | the next cell starts after this one |
| BlockSyntax.Cells | marker/src/marker.c:1341-1424 | a row has cells exactly when text remains |
| BlockSyntax.CellsHtmlSnoc | marker/src/marker.c:1357-1417 | one more cell appends that cell's HTML |
| BlockSyntax.SingleCell | marker/src/marker.c:1341-1424 | a row without an inner pipe has one cell, its trimmed text |
| BlockSyntax.CellsExample | marker/src/marker.c:1341-1424 | `\| a \| b \|` has the cells `a` and `b` |
| BlockSyntax.EmptyCellExample | marker/src/marker.c:1341-1424 | `a\|\|b` has an empty middle cell |
| BlockSyntax.SkipBlanks | marker/src/marker.c:1512-1513 | the scan passes only spaces and tabs |
| BlockSyntax.WordEnd | marker/src/marker.c:1516-1518 | the url ends at whitespace or the terminator |
| BlockSyntax.RefDefinition | marker/src/marker.c:1500-1558 | a definition line starts with `[`, and its name holds no `]` |
| BlockSyntax.RefDefinitionAt | marker/src/marker.c:1500-1558 | the definition is the name, url and title found by the scans |
| BlockSyntax.NameScan | marker/src/marker.c:1502 | the first `]` of `[name]...` follows the name |
| BlockSyntax.UrlScan | marker/src/marker.c:1516-1518 | the url word ends where the url ends |
| BlockSyntax.DefinitionLayout | marker/src/marker.c:1500-1558 | where the parts of `[name]: url` sit |
| BlockSyntax.DefinitionScans | marker/src/marker.c:1500-1558 | where the scans over `[name]: url` stop |
| BlockSyntax.RefDefinitionTitled | marker/src/marker.c:1500-1558 | `[name]: url "title"` parses back to its three parts |
| BlockSyntax.QuotedTitle | marker/src/marker.c:1527-1545 | a quoted title at the end of the line is read back |
| BlockSyntax.RefDefinitionUntitled | marker/src/marker.c:1500-1558 | `[name]: url` parses back with no title |
| BlockSyntax.RefDefinitionNeedsColon | marker/src/marker.c:1501-1503 | a `]` not followed by `:` defines nothing |
| BlockSyntax.PieceHtmls | marker/src/marker.c:1446-1783 | one HTML string per piece |
| BlockSyntax.PiecesHtmlSingle | marker/src/marker.c:1446-1783 | a single piece emits its own HTML |
| BlockSyntax.PiecesHtmlConcat | marker/src/marker.c:1446-1783 | the pieces of two lists emit one after the other |
| BlockSyntax.LineAt | marker/src/marker.c:1457-1476 | an extracted line holds no NUL |
| BlockSyntax.After | marker/src/marker.c:1759-1762 | the next line starts after this one unless the document has ended |
| BlockSyntax.TableStep | marker/src/marker.c:1664-1737 | the table branch defines nothing and moves forward |
| BlockSyntax.BlockStep | marker/src/marker.c:1500-1757 | a block line moves forward |
| BlockSyntax.LineStepOf | marker/src/marker.c:1478-1757 | a line step moves forward |
| BlockSyntax.LineStep | marker/src/marker.c:1457-1763 | each line step moves strictly forward |
| BlockSyntax.Steps | marker/src/marker.c:1457-1781 | the walk always ends with a step |
| BlockSyntax.EmitFirst | marker/src/marker.c:1457-1763 | carrying out the first step, then the rest |
| BlockSyntax.WalkStep | marker/src/marker.c:1457-1763 | the walk from a line is that line's step followed by the walk from the next line |
| BlockSyntax.WalkAdvance | marker/src/marker.c:1457-1763 | the main loop's invariant carries over one line |
| BlockSyntax.WalkEnd | marker/src/marker.c:1765-1781 | at the end of the document only the closing step is left |
| BlockSyntax.ClosingHtml | marker/src/marker.c:1560-1635 | a closing line writes the closers, then its own HTML |
| BlockSyntax.ItemStepHtml | marker/src/marker.c:1636-1662 | a list item writes the table closers, the list opening when needed, then the item |
| BlockSyntax.ListLeadHtml | marker/src/marker.c:1666-1672 | a line that closes the list writes the list closer first |
| BlockSyntax.HeaderRowHtml | marker/src/marker.c:1690-1722 | a header row writes the table opening when needed, the row and the start of the body |
| BlockSyntax.TableHeaderHtml | marker/src/marker.c:1664-1722 | a table line followed by a separator writes the header row |
| BlockSyntax.TableBodyHtml | marker/src/marker.c:1726-1737 | a table line without a separator below writes a data row or a paragraph |
| BlockSyntax.EmitRefs | marker/src/marker.c:1500-1558 | after parsing, the table is the document's definitions, last first, ahead of the table it started with |
| BlockSyntax.StepsEndWithFinish | marker/src/marker.c:1765-1781 | every walk ends with the step that closes what is open and defines nothing |
| BlockSyntax.EndClosesInOrder | marker/src/marker.c:1765-1781 | the end closes a code block, then a list, then a table |
| BlockSyntax.CodeBlockVerbatim | marker/src/marker.c:1479-1498 | inside a code block a fence closes it and any other line is copied escaped |
| BlockSyntax.FenceOpensCode | marker/src/marker.c:1479-1490 | outside a code block a fence opens one, leaving lists and tables open |
| BlockSyntax.DefinitionEmitsNothing | marker/src/marker.c:1500-1558 | a definition line writes nothing and keeps the block state |
| BlockSyntax.ClosingOrder | marker/src/marker.c:1560-1635 | blank lines, headings, rules, blockquotes and paragraphs close the list, then the table |
| BlockSyntax.RuleBeforeList | marker/src/marker.c:1598-1637 | `- - -` is both a list item and a rule, and the rule wins |
| BlockSyntax.ListItemStep | marker/src/marker.c:1636-1662 | a list item closes the table, and opens a list when none is open, ordered exactly when it starts with a digit |
| BlockSyntax.TableHeaderStep | marker/src/marker.c:1664-1722 | a piped line followed by a separator opens a table and skips the separator |
| BlockSyntax.TableBodyStep | marker/src/marker.c:1726-1737 | without a separator below, a piped line is a data row inside a table and a paragraph outside one |
| BlockEngine.ShiftLeft | marker/src/marker.c:352-355 | `memmove` moves the string and its terminator to the front |
| BlockEngine.DropTrailing | marker/src/marker.c:357-361 | trailing whitespace is overwritten with terminators, keeping the rest |
| BlockEngine.TrimWhitespace | marker/src/marker.c:344-362 | the array holds the trimmed text followed by a terminator |
| BlockEngine.LineLength | marker/src/marker.c:1459-1462 | the line runs to the next newline or the terminator |
| BlockEngine.CopyTrimmed | marker/src/marker.c:1471-1476 | the copied line is the trimmed line |
| BlockEngine.ReadLine | marker/src/marker.c:1457-1476 | the line read is the trimmed line at `pos`; the table is kept |
| BlockEngine.SkipNewline | marker/src/marker.c:1759-1762 | the next line starts past the newline |
| BlockEngine.CheckListItem | marker/src/marker.c:1142-1152 | the loop answers `is_list_item` |
| BlockEngine.CheckHorizontalRule | marker/src/marker.c:1154-1172 | the loop answers `is_horizontal_rule` |
| BlockEngine.CheckTableSeparator | marker/src/marker.c:1174-1189 | the loop answers `is_table_separator` |
| BlockEngine.ScanBlanks | marker/src/marker.c:1512-1513 | the loop answers the blank-skipping scan |
| BlockEngine.ScanWord | marker/src/marker.c:1516-1518 | the loop answers the end of the url |
| BlockEngine.ScanTitle | marker/src/marker.c:1527-1545 | the loops answer the title opening with a quote at `from` and running to the last quote, or none |
| BlockEngine.ParseDefinition | marker/src/marker.c:1500-1558 | the loops answer the name, url and title that RefDefinition states, or nothing for a line that is no definition |
| BlockEngine.AppendInline | marker/src/marker.c:1206-1238 | the buffer gains the tags around the inline rendering |
| BlockEngine.HeaderLayout | marker/src/marker.c:1196-1205 | the level is the count of leading `#`, at most six, and the text starts after the spaces that follow |
| BlockEngine.AppendHeader | marker/src/marker.c:1191-1238 | INVALID_INPUT with nothing written for a non-header, else the heading |
| BlockEngine.AppendBlockquote | marker/src/marker.c:1240-1266 | INVALID_INPUT with nothing written for a non-quote, else the quotation |
| BlockEngine.ItemLayout | marker/src/marker.c:1273-1297 | the item is ordered exactly when it starts with a digit, with its checkbox and text start |
| BlockEngine.ItemOpenTag | marker/src/marker.c:1299-1325 | the item opens with `<li>`; a task item adds the task-list class and a disabled checkbox, checked exactly for `x` or `X` |
| BlockEngine.AppendListItem | marker/src/marker.c:1268-1339 | INVALID_INPUT with nothing written for a non-item, else the item and its kind |
| BlockEngine.TrimCell | marker/src/marker.c:1376-1382 | the cell bounds give the trimmed cell text |
| BlockEngine.SkipToCell | marker/src/marker.c:1410-1416 | the scan reaches the next cell |
| BlockEngine.AppendCell | marker/src/marker.c:1357-1417 | the buffer gains one cell and the cell list advances by it |
| BlockEngine.SkipToRow | marker/src/marker.c:1352-1355 | the scan reaches the row start |
| BlockEngine.AppendCells | marker/src/marker.c:1357-1417 | the buffer gains every cell of the row |
| BlockEngine.AppendTableRow | marker/src/marker.c:1341-1424 | the buffer gains `<tr>`, one header or data cell per cell of the row, then `</tr>` |
| BlockEngine.AppendParagraph | marker/src/marker.c:1426-1444 | the buffer gains `<p>`, the inline rendering of the line, then `</p>` |
| BlockEngine.CloseOpen | marker/src/marker.c:1562-1577 | the buffer gains the open list's closer, then the open table's, and both are marked closed |
| BlockEngine.PeekLine | marker/src/marker.c:1674-1688 | the look-ahead reads the trimmed next line and where the line after it starts |
| BlockEngine.OpenList | marker/src/marker.c:1640-1660 | the table is closed and a list opened when none is, ordered exactly when the first item starts with a digit; an open list keeps its kind |
| BlockEngine.ListLine | marker/src/marker.c:1636-1662 | the buffer gains the table closer when a table is open, the list opening of the first item's kind when no list is open, then the item; the state follows |
| BlockEngine.EndList | marker/src/marker.c:1666-1672 | the buffer gains the closer of the open list, of its own kind, and the list is marked closed |
| BlockEngine.HeaderRow | marker/src/marker.c:1690-1714 | the buffer gains `<table>` and `<thead>` when no table is open, the row as header cells, then `</thead>` and `<tbody>` |
| BlockEngine.BodyRow | marker/src/marker.c:1726-1737 | inside a table the buffer gains a row of data cells; outside one, a paragraph |
| BlockEngine.TableRow | marker/src/marker.c:1664-1737 | the buffer gains the list closer when a list is open, then the header row when a separator follows, or else the data row or paragraph |
| BlockEngine.TableLine | marker/src/marker.c:1664-1737 | the table branch writes what TableRow states, closes the list, opens a table exactly when a separator follows, and then skips the separator line |
| BlockEngine.ClosingLine | marker/src/marker.c:1560-1635 | closers, then the line's output, and nothing open |
| BlockEngine.BlockLine | marker/src/marker.c:1560-1757 | a block line does what its step says |
| BlockEngine.ListTableOrParagraph | marker/src/marker.c:1636-1757 | the list, table or paragraph line does what its step says |
| BlockEngine.CodeLine | marker/src/marker.c:1479-1498 | a fence toggles the block and a code line is copied escaped |
| BlockEngine.HandleLine | marker/src/marker.c:1478-1757 | a line does what its step says, adding its definition to the table |
| BlockEngine.ProcessLine | marker/src/marker.c:1457-1763 | one loop iteration does the line's step |
| BlockEngine.EndBlocks | marker/src/marker.c:1765-1781 | the end closes what is open in order |
| BlockEngine.MarkerParse | marker/src/marker.c:1446-1783 | NULL_POINTER exactly for missing arguments, changing nothing; otherwise the buffer gains the document's HTML and the table its definitions |
| Converter.CopyString | marker/src/marker.c:1860 | `strcpy` writes the string and a terminator and keeps the rest |
| Converter.StyleLink | marker/src/marker.c:1809-1823 | the link is empty exactly when no CSS name, or an empty one, is given |
| Converter.AppendStyleLink | marker/src/marker.c:1809-1823 | the buffer gains the stylesheet link |
| Converter.AppendBody | marker/src/marker.c:1790-1850 | the buffer gains the rendered document |
| Converter.BuildPage | marker/src/marker.c:1790-1851 | the page is the head, optional link, body and closing tags |
| Converter.ToHtml | marker/src/marker.c:1786-1865 | NULL_POINTER for missing arguments or size 0; BUFFER_TOO_SMALL with the array untouched exactly when the page does not fit with its terminator; else OK with the page copied |
| Converter.PageFrame | marker/src/marker.c:1801-1850 | every page starts with the head, ends with the closing tags and has at least 54 characters |
| Converter.PageStyleLink | marker/src/marker.c:1809-1823 | with a CSS name the link follows the opening tags |
| Converter.PageWithoutStyle | marker/src/marker.c:1809 | without a CSS name the head is empty |
| Converter.SmallArrayTooSmall | marker/tests/test_marker.c:372-376 | no page fits in 54 characters or fewer |
| Converter.ParseInline | marker/src/marker.c:1867-1874 | NULL_POINTER exactly for missing arguments, appending nothing; else the buffer gains the inline rendering of the whole text |
| Converter.FenceCount | marker/src/marker.c:1982-1989 | no fences at the terminator |
| Converter.CountFences | marker/src/marker.c:1979-1989 | the loop counts the fence runs |
| Converter.FenceCountBound | marker/src/marker.c:1982-1989 | a text of `n` characters has at most `n/3` runs |
| Converter.FenceCountNoTicks | marker/src/marker.c:1982-1989 | a text without backticks has no fences |
| Converter.FenceCountExamples | marker/tests/test_marker.c:379 | the unclosed fence of the test counts one; runs do not overlap; tildes do not count |
| Converter.Truncated | marker/src/marker.c:1972-1973 | the written message fills exactly `size` cells |
| Converter.TruncatedReadsBack | marker/src/marker.c:1972-1973 | read back, the message is its first `size - 1` characters |
| Converter.WriteMessage | marker/src/marker.c:1972-1973 | the first `size` cells hold the truncated message, the rest is kept |
| Converter.Validate | marker/src/marker.c:1969-2000 | valid exactly for a given text with an even fence count; otherwise the message is written when an array is given, and nothing is written on success |
| Converter.FirstFailure | marker/src/marker.c:1956-1967 | OK exactly when every file succeeds; else the result of the first failing file |
| Converter.ConvertFiles | marker/src/marker.c:1956-1967 | NULL_POINTER for missing lists or a non-positive count; else the first failure of the files in order |
| Mime.Lookup | iris/src/iris.c:31-42 | a found type is the type of some row |
| Mime.Extension | iris/src/iris.c:32 | the extension starts with the last dot and holds no other dot; there is none exactly when the path has no dot |
| Mime.MimeTypeIn | iris/src/iris.c:31-42 | the answer is the fallback or some row's type |
| Mime.IrisMimeType | iris/src/iris.c:19-42 | `iris_get_mime_type` answers the fallback or a row's type |
| Mime.LegacyMimeType | src/main.c:20-42 | `get_mime_type` answers the fallback or a row's type |
| Mime.LookupFirstMatch | iris/src/iris.c:34-38 | the walk answers the type of the first row equal to the extension ignoring case, and nothing exactly when no row is |
| Mime.LookupMiss | iris/src/iris.c:34-38 | the walk finds nothing exactly when no row folds to the same text as the extension |
| Mime.IrisMimeTypeIgnoresCase | iris/src/iris.c:35 | paths differing only in ASCII case get the same type |
| Mime.FoldKeepsDots | iris/src/iris.c:32 | paths with the same fold have their last dot in the same place |
| Mime.LastIndexOfSameDots | iris/src/iris.c:32 | `strrchr` agrees on strings with dots in the same places |
| Mime.FoldSuffix | iris/src/iris.c:32-35 | suffixes of equally folded strings fold equally |
| Mime.LookupSameFold | iris/src/iris.c:34-38 | the walk cannot tell apart extensions with the same fold |
| Mime.ServersAgree | src/main.c:20-42 | both servers give every path the same type |
| Mime.NoDotFallback | iris/src/iris.c:41 | a path without a dot gets the fallback |
| Mime.LastDotAt | iris/src/iris.c:32 | the extension starts at the last dot |
| Mime.LastIndexOfAt | iris/src/iris.c:32 | `strrchr` answers the last dot |
| Mime.LookupHit | iris/src/iris.c:34-38 | the walk stops at the first matching row |
| Mime.IrisRows | iris/src/iris.c:19-29 | every extension of the table is 3 to 5 characters |
| Mime.MimeTypeAt | iris/src/iris.c:31-42 | the type is the walk's answer for the text after the last dot, or the fallback |
| Mime.HitAt | iris/src/iris.c:34-38 | the walk stops at a row equal up to case when earlier rows differ |
| Mime.MissByLength | iris/src/iris.c:34-41 | an extension whose length no row has finds nothing |
| Mime.IrisMissByLength | iris/src/iris.c:19-42 | a path whose extension is shorter than 3 or longer than 5 characters gets `application/octet-stream`, since every row has 3 to 5 |
| Mime.UpperCaseExample | iris/src/iris.c:35 | `index.HTML` is `text/html` |
| Mime.LongerExtensionExample | iris/src/iris.c:34-41 | `page.html5` gets the fallback |
| Mime.DirectoryDotExample | iris/src/iris.c:32 | `a.d/file` gets the fallback |
| Mime.LastDotExample | iris/src/iris.c:32 | `style.css.html` is `text/html` |
| StaticServer.DotDotFromIff | src/main.c:138 | the scan from `i` finds `..` exactly when two neighbouring dots stand before the terminator |
| StaticServer.DotDotScan | src/main.c:138 | `strstr(req, "..")` answers whether the request's text contains `..` |
| StaticServer.JoinTruncated | src/main.c:141 | `snprintf` writes nothing for size 0; otherwise it writes the joined text cut to `size - 1` characters, then a NUL |
| StaticServer.SanitizePath | src/main.c:136-143 | refused exactly when the request contains `..`; otherwise the written path |
| StaticServer.SanitizedPathReadsBack | src/main.c:141-142 | read back, an accepted path is the directory and request joined, whole when it fits and cut otherwise |
| StaticServer.AbsolutePathExample | src/main.c:136-143 | `/etc/passwd` under `.` is accepted as `./etc/passwd` |
| StaticServer.DotDotExamples | src/main.c:138-140 | `/notes..txt` and `/a/../b` are both refused |
| StaticServer.TruncationExample | src/main.c:141 | `/srv` and `/index.html` in 8 characters give `/srv/in` |

## Left out

- File and batch I/O are not modelled: `marker_file_to_html_file` and the `md_*` wrappers are left out, and so is the text of `quickie/quickie.c`. The batch loop of `marker_files_to_html_files` is modelled over an abstract per-file converter.
- `marker_version`, `marker_parser_free` and `marker_buffer_free` have no behaviour beyond returning a constant or freeing memory.
- Allocation always succeeds: the MEMORY_ALLOCATION branches are left out, and so is the bookkeeping of the `line_buffer` reallocation. The reallocation itself is kept as a fresh, larger array.
- `ispunct`, `isdigit` and `tolower` follow the ASCII C locale.
- Chars.CaseCompare: only whether `strcasecmp` answers zero is stated, not the sign of the difference, which no caller uses.
- The configuration fields `smart_quotes` and `max_nesting_depth` are carried but never read by the converter.
- `parse_list_item(parser, line, NULL, &dummy)` at marker/src/marker.c:1651 is left out. It is only called to learn the list kind, and `OpenList` reads that kind from the first character.
- The `int` counter of `marker_validate` is unbounded: its overflow past `INT_MAX` fences is not modelled.
- The servers' sockets, HTTP responses, `iris_get_http_date` and the accept loops are left out. So is `iris_sanitize_path`, because it depends on `realpath` and the filesystem.
- An emphasis closer is any run of at least as many markers as the opener, and the span ends where that run starts (marker/src/marker.c:379-384, `InlineSyntax.EmphasisSearch`).
- A reference definition applies only to lines after it. `marker_parse` makes one pass over the lines (marker/src/marker.c:1457) and stores each definition when it reaches it (marker/src/marker.c:1500-1502 and 1544).
- Strings are byte sequences, one `char` per byte: multi-byte UTF-8 text is given byte by byte. Every size limit the model proves therefore counts bytes, as in C: the 2048-byte link buffers, `html_size` in `Converter.ToHtml`, `output_size` in `Escaping.EscapeInto` and the `snprintf` size in `StaticServer.SanitizePath` and `StaticServer.JoinTruncated`.
- `src/marker.h` and `tests/test_marker.c` at the top level describe a three-argument API. Its implementation is not part of this model.

## Findings

| source | as written | input that shows it | evidently intended | confidence | as-written member | corrected member |
|---|---|---|---|---|---|---|
| marker/src/marker.c:295 | an entity is written only when `out_pos + entity_len < output_size - 1`, one slot short | `marker_escape_html("&", out, 6)`: `&amp;` and its terminator fill 6 slots, yet BUFFER_TOO_SMALL is returned | an entity is written when it and the terminator fit, as for plain characters | not executed | Escaping.EscapeFitsRefusesExactFit | Escaping.EscapeIntoExact |
