/**
 * What the inline grammar promises: ordinary text is only escaped, each
 * construct produces the markup the library documents, and openers without a
 * partner stay literal.
 */
module InlineProperties {
  import opened Options
  import opened Chars
  import opened Configuration
  import opened ReferenceLinks
  import opened Escaping
  import opened InlineSyntax

  /** A character that starts no inline construct. */
  predicate Ordinary(c: char)
  {
    c != NUL && c != '\\' && c != '*' && c != '_' && c != '~' && c != '`' && c != '!' && c != '[' && c != '<' && c != '\n'
  }

  /** An ordinary character is one step of the loop that writes the character, escaped when escaping is on. */
  lemma ScanOrdinary(cfg: Config, refs: seq<RefLink>, text: seq<char>, pos: nat)
    requires pos < |text| && Ordinary(text[pos])
    ensures Scan(cfg, refs, text, pos) == Leaf(Attr(cfg, [text[pos]]), pos + 1)
  {
  }

  /** Text made of ordinary characters renders as itself, escaped when escaping is on. */
  lemma {:induction false} RenderOrdinaryText(cfg: Config, refs: seq<RefLink>, text: seq<char>, pos: nat)
    requires pos <= |text|
    requires forall k :: pos <= k < |text| ==> Ordinary(text[k])
    ensures Render(cfg, refs, text, pos, |text|) == Attr(cfg, text[pos..])
    decreases |text| - pos
  {
    if pos < |text| {
      OrdinaryStep(cfg, refs, text, pos);
      RenderOrdinaryText(cfg, refs, text, pos + 1);
      AttrStep(cfg, text, pos);
    }
  }

  /** The attribute text of a suffix is that of its first character followed by that of the rest. */
  lemma AttrStep(cfg: Config, text: seq<char>, pos: nat)
    requires pos < |text|
    ensures Attr(cfg, text[pos..]) == Attr(cfg, [text[pos]]) + Attr(cfg, text[pos + 1..])
  {
    assert text[pos..] == [text[pos]] + text[pos + 1..];
    AttrConcat(cfg, [text[pos]], text[pos + 1..]);
  }

  /** One ordinary character is written, then the rest of the text. */
  lemma OrdinaryStep(cfg: Config, refs: seq<RefLink>, text: seq<char>, pos: nat)
    requires pos < |text| && Ordinary(text[pos])
    ensures Render(cfg, refs, text, pos, |text|) == Attr(cfg, [text[pos]]) + Render(cfg, refs, text, pos + 1, |text|)
  {
    ScanOrdinary(cfg, refs, text, pos);
    RenderLeaf(cfg, refs, text, pos, |text|);
  }

  /** Writing text in two parts writes the two parts. */
  lemma AttrConcat(cfg: Config, a: seq<char>, b: seq<char>)
    ensures Attr(cfg, a + b) == Attr(cfg, a) + Attr(cfg, b)
  {
    EscapeConcat(a, b);
  }

  /** An emphasis opener without a closer is written as the literal marker. */
  lemma UnmatchedEmphasisIsLiteral(cfg: Config, refs: seq<RefLink>, text: seq<char>, pos: nat)
    requires pos < |text| && (text[pos] == '*' || text[pos] == '_')
    requires FindEmphasisEnd(text, pos, text[pos], if At(text, pos + 1) == text[pos] then 2 else 1).None?
    ensures Scan(cfg, refs, text, pos) == Leaf([text[pos]], pos + 1)
  {
    EscapeCharShape(text[pos]);
  }

  /** A `[` whose link text is never closed is written as a literal bracket. */
  lemma UnclosedBracketIsLiteral(cfg: Config, refs: seq<RefLink>, text: seq<char>, pos: nat)
    requires pos < |text| && text[pos] == '['
    requires At(text, LinkTextEnd(text, pos + 1, 0)) != ']'
    ensures Scan(cfg, refs, text, pos) == Leaf("[", pos + 1)
  {
    EscapeCharShape('[');
  }

  /** At a `[`, the loop either takes a link or writes the bracket as a literal character. */
  lemma ScanBracket(cfg: Config, refs: seq<RefLink>, text: seq<char>, pos: nat)
    requires pos < |text| && text[pos] == '['
    ensures Scan(cfg, refs, text, pos)
      == if Link(refs, text, pos).Some? then Link(refs, text, pos).value else Leaf("[", pos + 1)
  {
    EscapeCharShape('[');
  }

  /** A `[` whose link text closes and is followed by `(` is the inline link, when that form matches. */
  lemma ScanInlineLink(cfg: Config, refs: seq<RefLink>, text: seq<char>, textEnd: nat, tok: Token)
    requires 0 < textEnd < |text| && text[0] == '[' && textEnd == LinkTextEnd(text, 1, 0) && text[textEnd] == ']'
    requires At(text, textEnd + 1) == '(' && InlineLink(text, 0, textEnd) == Some(tok)
    ensures Scan(cfg, refs, text, 0) == tok
  {
    assert Link(refs, text, 0) == Some(tok);
    ScanBracket(cfg, refs, text, 0);
  }

  /** A `[` whose link text closes and is not followed by `(` is a reference link, when one resolves. */
  lemma LinkByReference(refs: seq<RefLink>, text: seq<char>, textEnd: nat, tok: Token)
    requires 0 < textEnd < |text| && text[0] == '[' && textEnd == LinkTextEnd(text, 1, 0) && text[textEnd] == ']'
    requires At(text, textEnd + 1) != '(' && ReferenceLink(refs, text, 0, textEnd) == Some(tok)
    ensures Link(refs, text, 0) == Some(tok)
  {
  }

  /** At a `<`, the loop tries an autolink, then inline HTML, and otherwise writes the character. */
  lemma ScanAngle(cfg: Config, refs: seq<RefLink>, text: seq<char>, pos: nat)
    requires pos < |text| && text[pos] == '<'
    ensures Scan(cfg, refs, text, pos)
      == if Autolink(cfg, text, pos).Some? then Autolink(cfg, text, pos).value
         else if InlineHtml(cfg, text, pos).Some? then InlineHtml(cfg, text, pos).value
         else Leaf(Attr(cfg, "<"), pos + 1)
  {
  }

  /** The link-text scan over a stretch without brackets stops at the `]` that follows it. */
  lemma {:induction false} LinkTextEndPlain(text: seq<char>, i: nat, j: nat)
    requires i <= j < |text| && text[j] == ']'
    requires forall k :: i <= k < j ==> text[k] != '[' && text[k] != ']' && text[k] != NUL
    ensures LinkTextEnd(text, i, 0) == j
    decreases j - i
  {
    if i < j {
      LinkTextEndPlain(text, i + 1, j);
    }
  }

  /** The layout of `[t]` followed by `after`: the link text is `t` and its scan stops at the `]`. */
  lemma ShortcutShape(t: seq<char>, after: seq<char>)
    requires NoNul(t) && '[' !in t && ']' !in t
    ensures var text := "[" + t + "]" + after;
      && text[0] == '[' && At(text, |t| + 1) == ']' && At(text, |t| + 2) == At(after, 0)
      && text[1..|t| + 1] == t && LinkTextEnd(text, 1, 0) == |t| + 1
  {
    var text := "[" + t + "]" + after;
    assert At(text, |t| + 2) == At(after, 0);
    LinkTextEndPlain(text, 1, |t| + 1);
    assert text[1..|t| + 1] == t;
  }

  /**
   * A shortcut reference `[t]` whose trimmed text names a stored definition
   * becomes a link to it, with `t` as the link text, when neither `(` nor `[`
   * follows the closing bracket.
   */
  lemma ShortcutReferenceResolves(cfg: Config, refs: seq<RefLink>, t: seq<char>, after: seq<char>, r: RefLink)
    requires NoNul(t) && '[' !in t && ']' !in t && |t| < MaxLinkLength
    requires Find(refs, Trim(t)) == Some(r)
    requires At(after, 0) != '(' && At(after, 0) != '['
    ensures Scan(cfg, refs, "[" + t + "]" + after, 0) == Anchor(Stored(r), t, |t| + 2)
  {
    var text := "[" + t + "]" + after;
    ShortcutShape(t, after);
    assert FullReference(refs, text, 0, |t| + 1) == Unresolved;
    assert Link(refs, text, 0) == Some(Anchor(Stored(r), t, |t| + 2));
    ScanBracket(cfg, refs, text, 0);
  }

  /** A shortcut reference that names no stored definition leaves the bracket literal. */
  lemma UnresolvedShortcutIsLiteral(cfg: Config, refs: seq<RefLink>, t: seq<char>, after: seq<char>)
    requires NoNul(t) && '[' !in t && ']' !in t
    requires Find(refs, Trim(t)).None?
    requires At(after, 0) != '(' && At(after, 0) != '['
    ensures Scan(cfg, refs, "[" + t + "]" + after, 0) == Leaf("[", 1)
  {
    var text := "[" + t + "]" + after;
    ShortcutShape(t, after);
    assert FullReference(refs, text, 0, |t| + 1) == Unresolved;
    assert Link(refs, text, 0).None?;
    ScanBracket(cfg, refs, text, 0);
  }

  /** `*x*` gives `<em>x</em>`. */
  lemma StarEmphasisExample(cfg: Config, refs: seq<RefLink>, text: seq<char>)
    requires text == "*x*"
    ensures Render(cfg, refs, text, 0, 3) == "<em>x</em>"
  {
    assert !IsEmphasisCloser(text, 0, '*', 1, 1);
    assert RunAt(text, 2, '*', 1) && IsEmphasisCloser(text, 0, '*', 1, 2);
    assert FindEmphasisEnd(text, 0, '*', 1) == Some(2);
    ScanEmphasis(cfg, refs, text, 0);
    SpanOfX(cfg, refs, text, "em", 1);
    TaggedX();
  }

  /** `**x**` gives `<strong>x</strong>`. */
  lemma StrongEmphasisExample(cfg: Config, refs: seq<RefLink>, text: seq<char>)
    requires text == "**x**"
    ensures Render(cfg, refs, text, 0, 5) == "<strong>x</strong>"
  {
    assert !IsEmphasisCloser(text, 0, '*', 2, 2);
    assert RunAt(text, 3, '*', 2) && IsEmphasisCloser(text, 0, '*', 2, 3);
    assert FindEmphasisEnd(text, 0, '*', 2) == Some(3);
    ScanEmphasis(cfg, refs, text, 0);
    SpanOfX(cfg, refs, text, "strong", 2);
    TaggedX();
  }

  /** At `*` or `_` the loop takes emphasis whenever a closer exists. */
  lemma ScanEmphasis(cfg: Config, refs: seq<RefLink>, text: seq<char>, pos: nat)
    requires pos < |text| && (text[pos] == '*' || text[pos] == '_') && Emphasis(text, pos).Some?
    ensures Scan(cfg, refs, text, pos) == Emphasis(text, pos).value
  {
  }

  /** The three tags around `x`, spelled out. */
  lemma TaggedX()
    ensures "<" + "em" + ">" + "x" + "</" + "em" + ">" == "<em>x</em>"
    ensures "<" + "strong" + ">" + "x" + "</" + "strong" + ">" == "<strong>x</strong>"
    ensures "<" + "del" + ">" + "x" + "</" + "del" + ">" == "<del>x</del>"
  {
  }

  /** The rendering of a span around the single character `x` that closes at the end of the text. */
  lemma SpanOfX(cfg: Config, refs: seq<RefLink>, text: seq<char>, tag: seq<char>, from: nat)
    requires from < |text| && text[from] == 'x' && At(text, 0) != NUL
    requires Scan(cfg, refs, text, 0) == Span(tag, from, from + 1, |text|)
    ensures Render(cfg, refs, text, 0, |text|) == "<" + tag + ">" + "x" + "</" + tag + ">"
  {
    RenderSpan(cfg, refs, text, 0, |text|);
    ScanOrdinary(cfg, refs, text, from);
    EscapeCharShape('x');
    assert Attr(cfg, "x") == "x";
    RenderLeaf(cfg, refs, text, from, from + 1);
    assert Render(cfg, refs, text, from + 1, from + 1) == [];
    assert Render(cfg, refs, text, |text|, |text|) == [];
  }

  /** A backslash before punctuation writes the punctuation as it stands: `\*x\*` gives `*x*`, no emphasis. */
  lemma EscapedPunctuationExample(cfg: Config, refs: seq<RefLink>)
    ensures Render(cfg, refs, "\\*x\\*", 0, 5) == "*x*"
  {
    ScanOrdinary(cfg, refs, "\\*x\\*", 2);
    EscapeCharShape('x');
  }

  lemma EscapeExample()
    ensures Escape("a<b") == "a&lt;b"
  {
    assert Escape("a<b") == EscapeChar('a') + Escape("<b");
    assert Escape("<b") == EscapeChar('<') + Escape("b");
    EscapeCharShape('b');
  }

  /** A code span escapes its content whatever the escaping switch says. */
  lemma CodeSpanExample(cfg: Config, refs: seq<RefLink>, text: seq<char>)
    requires text == "`a<b`"
    ensures Render(cfg, refs, text, 0, 5) == "<code>a&lt;b</code>"
  {
    CodeSpanOfLess(text);
    ScanCode(cfg, refs, text, 0);
    RenderLeaf(cfg, refs, text, 0, 5);
    assert Render(cfg, refs, text, 5, 5) == [];
  }

  /** The code span of `` `a<b` ``. */
  lemma CodeSpanOfLess(text: seq<char>)
    requires text == "`a<b`"
    ensures CodeSpan(text, 0) == Some(Leaf("<code>a&lt;b</code>", 5))
  {
    assert TickRun(text, 1) == 0;
    assert TickRun(text, 0) == 1;
    assert RunAt(text, 4, '`', 1);
    assert TickSearch(text, 4, 1) == Some(4);
    assert TickSearch(text, 3, 1) == Some(4);
    assert TickSearch(text, 2, 1) == Some(4);
    assert TickSearch(text, 1, 1) == Some(4);
    assert text[1..4] == "a<b";
    EscapeExample();
    assert "<code>" + "a&lt;b" + "</code>" == "<code>a&lt;b</code>";
  }

  /** At a backtick the loop takes the code span whenever it closes. */
  lemma ScanCode(cfg: Config, refs: seq<RefLink>, text: seq<char>, pos: nat)
    requires pos < |text| && text[pos] == '`' && CodeSpan(text, pos).Some?
    ensures Scan(cfg, refs, text, pos) == CodeSpan(text, pos).value
  {
  }

  /** A run of two backticks closes at the next run of two, and one space is dropped at each end. */
  lemma DoubleTickExample(cfg: Config, refs: seq<RefLink>, text: seq<char>)
    requires text == "`` x ``"
    ensures Render(cfg, refs, text, 0, 7) == "<code>x</code>"
  {
    DoubleTickSpan(text);
    ScanCode(cfg, refs, text, 0);
    RenderLeaf(cfg, refs, text, 0, 7);
    assert Render(cfg, refs, text, 7, 7) == [];
  }

  /** The code span of `` `` x `` ``: the inner spaces are dropped. */
  lemma DoubleTickSpan(text: seq<char>)
    requires text == "`` x ``"
    ensures CodeSpan(text, 0) == Some(Leaf("<code>x</code>", 7))
  {
    assert TickRun(text, 2) == 0;
    assert TickRun(text, 1) == 1;
    assert TickRun(text, 0) == 2;
    assert RunAt(text, 5, '`', 2);
    assert TickSearch(text, 5, 2) == Some(5);
    assert TickSearch(text, 4, 2) == Some(5);
    assert TickSearch(text, 3, 2) == Some(5);
    assert TickSearch(text, 2, 2) == Some(5);
    assert text[3..4] == "x";
    EscapeCharShape('x');
    assert "<code>" + "x" + "</code>" == "<code>x</code>";
  }

  /** `~~x~~` is struck through when strikethrough is enabled. */
  lemma StrikethroughExample(cfg: Config, refs: seq<RefLink>, text: seq<char>)
    requires cfg.enableStrikethrough && text == "~~x~~"
    ensures Render(cfg, refs, text, 0, 5) == "<del>x</del>"
  {
    assert StrikeSearch(text, 2) == Some(3);
    assert Scan(cfg, refs, text, 0) == Span("del", 2, 3, 5);
    SpanOfX(cfg, refs, text, "del", 2);
    TaggedX();
  }

  /** `~~x~~` is written as it stands when strikethrough is disabled. */
  lemma StrikethroughDisabledExample(cfg: Config, refs: seq<RefLink>, text: seq<char>)
    requires !cfg.enableStrikethrough && text == "~~x~~"
    ensures Render(cfg, refs, text, 0, 5) == text
  {
    EscapeCharShape('x');
    EscapeCharShape('~');
    assert Attr(cfg, "~") == "~" && Attr(cfg, "x") == "x";
    ScanTildeDisabled(cfg, refs, text, 4);
    RenderLeaf(cfg, refs, text, 4, 5);
    ScanTildeDisabled(cfg, refs, text, 3);
    RenderLeaf(cfg, refs, text, 3, 5);
    ScanOrdinary(cfg, refs, text, 2);
    RenderLeaf(cfg, refs, text, 2, 5);
    ScanTildeDisabled(cfg, refs, text, 1);
    RenderLeaf(cfg, refs, text, 1, 5);
    ScanTildeDisabled(cfg, refs, text, 0);
    RenderLeaf(cfg, refs, text, 0, 5);
    assert Render(cfg, refs, text, 5, 5) == [];
  }

  /** With strikethrough disabled, a tilde is an ordinary character. */
  lemma ScanTildeDisabled(cfg: Config, refs: seq<RefLink>, text: seq<char>, pos: nat)
    requires !cfg.enableStrikethrough && pos < |text| && text[pos] == '~'
    ensures Scan(cfg, refs, text, pos) == Leaf(Attr(cfg, "~"), pos + 1)
  {
  }

  /** Unfolding `Trim` once at each end: `u` followed by one space trims to `u` when `u` is already trimmed. */
  lemma TrimTrailingSpace(u: seq<char>)
    requires u != [] && !IsWhitespace(u[0]) && !IsWhitespace(u[|u| - 1])
    ensures Trim(u + " ") == u
  {
    var v := u + " ";
    assert SkipSpace(v, 0) == 0;
    assert v[0..] == v;
    assert BackSpace(v, |v|) == BackSpace(v, |u|) == |u|;
    assert v[..|u|] == u;
  }

  /**
   * A destination `u "t"` splits at its first `"`: the URL is `u` and the title
   * runs up to the last `"`, so it may itself hold quotes.
   */
  lemma SplitTitleQuoted(u: seq<char>, t: seq<char>)
    requires NoNul(u) && NoNul(t) && '"' !in u
    requires u != [] && !IsWhitespace(u[0]) && !IsWhitespace(u[|u| - 1])
    ensures SplitTitle(u + " \"" + t + "\"") == (u, t)
  {
    var url := u + " \"" + t + "\"";
    forall k | 0 <= k < |u| + 1
      ensures At(url, k) != '"' && At(url, k) != NUL
    {
      if k < |u| {
        assert url[k] == u[k];
      } else {
        assert url[k] == ' ';
      }
    }
    assert url[|u| + 1] == '"';
    ScanToFirst(url, 0, '"', |u| + 1);
    var rest := url[|u| + 2..];
    assert rest == t + "\"";
    assert LastIndexOf(rest, '"') == Some(|t|);
    assert rest[..|t|] == t;
    assert url[..|u| + 1] == u + " ";
    TrimTrailingSpace(u);
  }

  /** `[t](u "T")` opens with `href` and `title`, each escaped when escaping is on. */
  lemma InlineOpenTitled(cfg: Config, u: seq<char>, t: seq<char>)
    requires NoNul(u) && NoNul(t) && '"' !in u && t != []
    requires u != [] && !IsWhitespace(u[0]) && !IsWhitespace(u[|u| - 1])
    ensures InlineOpen(cfg, u + " \"" + t + "\"") == "<a href=\"" + Attr(cfg, u) + "\"" + " title=\"" + Attr(cfg, t) + "\"" + ">"
  {
    var dest := u + " \"" + t + "\"";
    assert dest[0] == u[0] && dest[|dest| - 1] == '"';
    TrimUnchanged(dest);
    SplitTitleQuoted(u, t);
  }

  /** `[t](u "")`: an empty title writes no `title` attribute at all. */
  lemma InlineOpenEmptyTitle(cfg: Config, u: seq<char>)
    requires NoNul(u) && '"' !in u
    requires u != [] && !IsWhitespace(u[0]) && !IsWhitespace(u[|u| - 1])
    ensures InlineOpen(cfg, u + " \"\"") == "<a href=\"" + Attr(cfg, u) + "\">"
  {
    var dest := u + " \"\"";
    assert dest == u + " \"" + [] + "\"";
    assert dest[0] == u[0] && dest[|dest| - 1] == '"';
    TrimUnchanged(dest);
    SplitTitleQuoted(u, []);
  }

  /** `[t](u)`: without a quote the destination is the trimmed URL and there is no title. */
  lemma InlineOpenUntitled(cfg: Config, u: seq<char>)
    requires NoNul(u) && '"' !in u
    ensures InlineOpen(cfg, u) == "<a href=\"" + Attr(cfg, Trim(u)) + "\">"
  {
    TrimKeepsAbsent(u, '"');
    TrimKeepsAbsent(u, NUL);
  }

  /** `![a](u)`: without a quote the image has `src` and `alt` only. */
  lemma ImageTagUntitled(cfg: Config, u: seq<char>, alt: seq<char>)
    requires NoNul(u) && '"' !in u
    ensures ImageTag(cfg, u, alt) == "<img src=\"" + Attr(cfg, Trim(u)) + "\" alt=\"" + Attr(cfg, alt) + "\">"
  {
    TrimKeepsAbsent(u, '"');
    TrimKeepsAbsent(u, NUL);
  }

  /**
   * `[t](dest)` is one step of the loop: a link to the destination whose text
   * is `t`; the loop goes on after the `)`.
   */
  lemma InlineLinkScan(cfg: Config, refs: seq<RefLink>, t: seq<char>, dest: seq<char>, after: seq<char>)
    requires NoNul(t) && '[' !in t && ']' !in t
    requires NoNul(dest) && ')' !in dest && |dest| < MaxLinkLength
    ensures Scan(cfg, refs, "[" + t + "](" + dest + ")" + after, 0) == Anchor(Destination(dest), t, |t| + |dest| + 4)
  {
    var text := "[" + t + "](" + dest + ")" + after;
    var textEnd, urlEnd := |t| + 1, |t| + 3 + |dest|;
    LinkTextEndPlain(text, 1, textEnd);
    assert text[textEnd + 1] == '(' && text[urlEnd] == ')';
    forall k | textEnd + 2 <= k < urlEnd
      ensures At(text, k) != ')' && At(text, k) != NUL
    {
      assert text[k] == dest[k - textEnd - 2];
    }
    ScanToFirst(text, textEnd + 2, ')', urlEnd);
    assert text[1..textEnd] == t;
    assert text[textEnd + 2..urlEnd] == dest;
    assert InlineLink(text, 0, textEnd) == Some(Anchor(Destination(dest), t, urlEnd + 1));
    ScanInlineLink(cfg, refs, text, textEnd, Anchor(Destination(dest), t, urlEnd + 1));
  }

  /** At a `!` that starts an image, the loop takes the image. */
  lemma ScanImage(cfg: Config, refs: seq<RefLink>, text: seq<char>, pos: nat)
    requires pos < |text| && text[pos] == '!' && Image(text, pos).Some?
    ensures Scan(cfg, refs, text, pos) == Image(text, pos).value
  {
  }

  /**
   * `![a](dest)` is one step of the loop that writes an image; the alt text is
   * copied, not rendered, and a `[` inside it does not nest.
   */
  lemma ImageScan(cfg: Config, refs: seq<RefLink>, a: seq<char>, dest: seq<char>, after: seq<char>)
    requires NoNul(a) && ']' !in a && |a| < MaxLinkLength
    requires NoNul(dest) && ')' !in dest && |dest| < MaxLinkLength
    ensures Scan(cfg, refs, "![" + a + "](" + dest + ")" + after, 0) == Picture(dest, a, |a| + |dest| + 5)
  {
    var text := "![" + a + "](" + dest + ")" + after;
    var altEnd, urlEnd := |a| + 2, |a| + 4 + |dest|;
    forall k | 2 <= k < altEnd
      ensures At(text, k) != ']' && At(text, k) != NUL
    {
      assert text[k] == a[k - 2];
    }
    assert text[altEnd] == ']';
    ScanToFirst(text, 2, ']', altEnd);
    forall k | altEnd + 2 <= k < urlEnd
      ensures At(text, k) != ')' && At(text, k) != NUL
    {
      assert text[k] == dest[k - altEnd - 2];
    }
    assert text[altEnd + 1] == '(' && text[urlEnd] == ')';
    ScanToFirst(text, altEnd + 2, ')', urlEnd);
    assert text[2..altEnd] == a;
    assert text[altEnd + 2..urlEnd] == dest;
    ScanImage(cfg, refs, text, 0);
  }

  /** The matcher for `<http://x>`. */
  lemma AutolinkWebMatch(cfg: Config, web: seq<char>)
    requires cfg.enableAutolinks && web == "<http://x>"
    ensures Autolink(cfg, web, 0) == Some(Leaf("<a href=\"" + "http://x" + "\">" + "http://x" + "</a>", 10))
  {
    assert forall k :: 1 <= k < 9 ==> At(web, k) !in {'>', ' ', '\n', NUL};
    assert At(web, 9) == '>';
    var e := AutolinkEnd(web, 1);
    assert e == 9;
    var content := web[1..9];
    assert content == "http://x";
    assert '@' !in content;
    assert StartsWith(content, "http://");
    assert "<a href=\"" + "" == "<a href=\"";
  }

  /** The matcher for `<a@b>`. */
  lemma AutolinkMailMatch(cfg: Config, mail: seq<char>)
    requires cfg.enableAutolinks && mail == "<a@b>"
    ensures Autolink(cfg, mail, 0) == Some(Leaf("<a href=\"" + "mailto:" + "a@b" + "\">" + "a@b" + "</a>", 5))
  {
    assert forall k :: 1 <= k < 4 ==> At(mail, k) !in {'>', ' ', '\n', NUL};
    assert At(mail, 4) == '>';
    var e := AutolinkEnd(mail, 1);
    assert e == 4;
    var content := mail[1..4];
    assert content == "a@b";
    assert '@' in content by { assert content[1] == '@'; }
  }

  /** With autolinks on, `<http://x>` links to itself and `<a@b>` becomes a mail link; the content is copied as it stands. */
  lemma AutolinkExamples(cfg: Config, refs: seq<RefLink>, web: seq<char>, mail: seq<char>)
    requires cfg.enableAutolinks && web == "<http://x>" && mail == "<a@b>"
    ensures Render(cfg, refs, web, 0, 10) == "<a href=\"" + "http://x" + "\">" + "http://x" + "</a>"
    ensures Render(cfg, refs, mail, 0, 5) == "<a href=\"" + "mailto:" + "a@b" + "\">" + "a@b" + "</a>"
  {
    AutolinkWebMatch(cfg, web);
    ScanAngle(cfg, refs, web, 0);
    RenderLeaf(cfg, refs, web, 0, 10);
    assert Render(cfg, refs, web, 10, 10) == [];
    AutolinkMailMatch(cfg, mail);
    ScanAngle(cfg, refs, mail, 0);
    RenderLeaf(cfg, refs, mail, 0, 5);
    assert Render(cfg, refs, mail, 5, 5) == [];
  }

  /** A label `[l]` closed in time after the link text is looked up, trimmed; `[]` looks up the text itself. */
  lemma FullReferenceLookup(refs: seq<RefLink>, text: seq<char>, pos: nat, textEnd: nat, refEnd: nat)
    requires pos < textEnd < |text| && At(text, textEnd + 1) == '['
    requires refEnd == ScanTo(text, textEnd + 2, ']') && At(text, refEnd) == ']'
    requires refEnd - (textEnd + 2) < MaxLinkLength
    requires refEnd == textEnd + 2 ==> textEnd - (pos + 1) < MaxLinkLength
    ensures var name := Trim(if refEnd == textEnd + 2 then text[pos + 1..textEnd] else text[textEnd + 2..refEnd]);
      FullReference(refs, text, pos, textEnd)
      == match Find(refs, name) case Some(r) => Resolved(r, refEnd + 1) case None => Unresolved
  {
  }

  /** A reference that resolves is a link to the stored definition, whose text is the link text. */
  lemma ReferenceLinkResolved(refs: seq<RefLink>, text: seq<char>, pos: nat, textEnd: nat, r: RefLink, next: nat)
    requires pos < textEnd < |text| && FullReference(refs, text, pos, textEnd) == Resolved(r, next)
    ensures ReferenceLink(refs, text, pos, textEnd) == Some(Anchor(Stored(r), text[pos + 1..textEnd], next))
  {
  }

  /** A reference that does not resolve falls back to the shortcut `[t]`, looked up by its trimmed text. */
  lemma ReferenceLinkShortcut(refs: seq<RefLink>, text: seq<char>, pos: nat, textEnd: nat, t: seq<char>, r: RefLink)
    requires pos < textEnd < |text| && FullReference(refs, text, pos, textEnd) == Unresolved
    requires text[pos + 1..textEnd] == t && |t| < MaxLinkLength && Find(refs, Trim(t)) == Some(r)
    ensures ReferenceLink(refs, text, pos, textEnd) == Some(Anchor(Stored(r), t, textEnd + 1))
  {
  }

  /**
   * In a text that starts with `[t][]`, the link text is `t`, and the
   * reference resolves exactly when the trimmed `t` names a stored
   * definition, in which case both bracket pairs are consumed.
   */
  lemma CollapsedLabel(refs: seq<RefLink>, text: seq<char>, t: seq<char>)
    requires NoNul(t) && '[' !in t && ']' !in t && |t| < MaxLinkLength
    requires "[" + t + "][]" <= text
    ensures |t| + 4 <= |text| && text[0] == '[' && text[|t| + 1] == ']' && At(text, |t| + 2) == '['
    ensures LinkTextEnd(text, 1, 0) == |t| + 1 && text[1..|t| + 1] == t
    ensures FullReference(refs, text, 0, |t| + 1)
      == match Find(refs, Trim(t)) case Some(r) => Resolved(r, |t| + 4) case None => Unresolved
  {
    var e := |t| + 1;
    var p := "[" + t + "][]";
    forall k | 1 <= k < e
      ensures text[k] != '[' && text[k] != ']' && text[k] != NUL
    {
      assert text[k] == p[k] == t[k - 1];
    }
    assert text[e] == p[e] == ']';
    LinkTextEndPlain(text, 1, e);
    assert text[e + 1] == p[e + 1] == '[' && text[e + 2] == p[e + 2] == ']';
    assert text[1..e] == t;
    assert text[0] == p[0] == '[';
    FullReferenceLookup(refs, text, 0, e, e + 2);
  }

  /**
   * In a text that starts with `[t][l]`, the link text is `t`, and the
   * reference resolves exactly when the trimmed label `l` names a stored
   * definition, in which case both bracket pairs are consumed.
   */
  lemma FullReferenceLabel(refs: seq<RefLink>, text: seq<char>, t: seq<char>, l: seq<char>)
    requires NoNul(t) && '[' !in t && ']' !in t
    requires NoNul(l) && ']' !in l && 0 < |l| < MaxLinkLength
    requires "[" + t + "][" + l + "]" <= text
    ensures |t| + |l| + 4 <= |text| && text[0] == '[' && text[|t| + 1] == ']' && At(text, |t| + 2) == '['
    ensures LinkTextEnd(text, 1, 0) == |t| + 1 && text[1..|t| + 1] == t
    ensures FullReference(refs, text, 0, |t| + 1)
      == match Find(refs, Trim(l)) case Some(r) => Resolved(r, |t| + |l| + 4) case None => Unresolved
  {
    var e, f := |t| + 1, |t| + 3 + |l|;
    var p := "[" + t + "][" + l + "]";
    forall k | 1 <= k < e
      ensures text[k] != '[' && text[k] != ']' && text[k] != NUL
    {
      assert text[k] == p[k] == t[k - 1];
    }
    assert text[e] == p[e] == ']';
    LinkTextEndPlain(text, 1, e);
    forall k | e + 2 <= k < f
      ensures At(text, k) != ']' && At(text, k) != NUL
    {
      assert text[k] == p[k] == l[k - e - 2];
    }
    assert text[e + 1] == p[e + 1] == '[' && text[f] == p[f] == ']';
    ScanToFirst(text, e + 2, ']', f);
    assert text[1..e] == t;
    assert text[e + 2..f] == l;
    assert text[0] == p[0] == '[';
    FullReferenceLookup(refs, text, 0, e, f);
  }

  /** `[t][]` looks up the link text itself and consumes both bracket pairs. */
  lemma CollapsedReferenceResolves(refs: seq<RefLink>, t: seq<char>, after: seq<char>, r: RefLink)
    requires NoNul(t) && '[' !in t && ']' !in t && |t| < MaxLinkLength
    requires Find(refs, Trim(t)) == Some(r)
    ensures Link(refs, "[" + t + "][]" + after, 0) == Some(Anchor(Stored(r), t, |t| + 4))
  {
    var text := "[" + t + "][]" + after;
    assert "[" + t + "][]" <= text;
    CollapsedLabel(refs, text, t);
    ReferenceLinkResolved(refs, text, 0, |t| + 1, r, |t| + 4);
    LinkAtReference(refs, text, t, |t| + 1, Anchor(Stored(r), t, |t| + 4));
  }

  /**
   * `[t][l]` whose label names nothing falls back to the shortcut `[t]`: when
   * `t` names a definition, only `[t]` is consumed and `[l]` is left for the
   * next steps of the loop.
   */
  lemma FullReferenceFallsBack(refs: seq<RefLink>, t: seq<char>, l: seq<char>, after: seq<char>, r: RefLink)
    requires NoNul(t) && '[' !in t && ']' !in t && |t| < MaxLinkLength
    requires NoNul(l) && ']' !in l && 0 < |l| < MaxLinkLength
    requires Find(refs, Trim(l)).None? && Find(refs, Trim(t)) == Some(r)
    ensures Link(refs, "[" + t + "][" + l + "]" + after, 0) == Some(Anchor(Stored(r), t, |t| + 2))
  {
    var text := "[" + t + "][" + l + "]" + after;
    assert "[" + t + "][" + l + "]" <= text;
    var tok := Anchor(Stored(r), t, |t| + 2);
    FallBackAt(refs, text, t, l, r);
    LinkByReference(refs, text, |t| + 1, tok);
  }

  /** `[t][l]` with an unknown label, on a text held abstract: the reference step takes the shortcut `[t]`. */
  lemma FallBackAt(refs: seq<RefLink>, text: seq<char>, t: seq<char>, l: seq<char>, r: RefLink)
    requires NoNul(t) && '[' !in t && ']' !in t && |t| < MaxLinkLength
    requires NoNul(l) && ']' !in l && 0 < |l| < MaxLinkLength
    requires Find(refs, Trim(l)).None? && Find(refs, Trim(t)) == Some(r)
    requires "[" + t + "][" + l + "]" <= text
    ensures |t| + 2 < |text| && text[0] == '[' && text[|t| + 1] == ']' && At(text, |t| + 2) == '['
    ensures LinkTextEnd(text, 1, 0) == |t| + 1
    ensures ReferenceLink(refs, text, 0, |t| + 1) == Some(Anchor(Stored(r), t, |t| + 2))
  {
    FullReferenceLabel(refs, text, t, l);
    ReferenceLinkShortcut(refs, text, 0, |t| + 1, t, r);
  }

  /** The bridge of the two lemmas above from the reference step to `Link`, on a text held abstract. */
  lemma LinkAtReference(refs: seq<RefLink>, text: seq<char>, t: seq<char>, textEnd: nat, tok: Token)
    requires textEnd == |t| + 1 && |t| + 2 < |text| && text[0] == '['
    requires LinkTextEnd(text, 1, 0) == textEnd && text[textEnd] == ']' && At(text, textEnd + 1) == '['
    requires text[1..textEnd] == t && ReferenceLink(refs, text, 0, textEnd) == Some(tok)
    ensures Link(refs, text, 0) == Some(tok)
  {
    LinkByReference(refs, text, textEnd, tok);
  }
}
