/**
 * The inline constructs over any content: emphasis, strikethrough, code spans,
 * autolinks, inline HTML and nested link text, each stated for a whole family
 * of texts rather than one sample.
 */
module InlineConstructs {
  import opened Options
  import opened Chars
  import opened Configuration
  import opened ReferenceLinks
  import opened Escaping
  import opened InlineSyntax
  import opened InlineProperties

  // ------------------------------------------------------------- search steps

  /** Where the parts of `o + x + cl + after` sit: `x` right after `o`, then `cl`. */
  lemma Wrapped(o: seq<char>, x: seq<char>, cl: seq<char>, after: seq<char>)
    ensures var text := o + x + cl + after;
      |text| == |o| + |x| + |cl| + |after| && text[|o|..|o| + |x|] == x
      && (forall k :: 0 <= k < |o| ==> text[k] == o[k])
      && (forall k :: |o| <= k < |o| + |x| ==> At(text, k) == x[k - |o|])
      && (forall k :: 0 <= k < |cl| ==> text[|o| + |x| + k] == cl[k])
  {
    var text := o + x + cl + after;
    assert text == o + (x + (cl + after));
  }

  /** The closer search stops at the first closer when nothing before it is one. */
  lemma {:induction false} EmphasisSearchFirst(text: seq<char>, start: nat, marker: char, count: nat, q: nat, j: nat)
    requires q <= j && IsEmphasisCloser(text, start, marker, count, j) && At(text, j) != NUL
    requires forall k :: q <= k < j ==> At(text, k) != NUL && !IsEmphasisCloser(text, start, marker, count, k)
    ensures EmphasisSearch(text, start, marker, count, q) == Some(j)
    decreases j - q
  {
    if q < j {
      EmphasisSearchFirst(text, start, marker, count, q + 1, j);
    }
  }

  /** The `~~` search stops at the first pair of tildes. */
  lemma {:induction false} StrikeSearchFirst(text: seq<char>, q: nat, j: nat)
    requires q <= j && j + 1 < |text| && text[j] == '~' && text[j + 1] == '~'
    requires forall k :: q <= k < j ==> At(text, k) != NUL && At(text, k) != '~'
    ensures StrikeSearch(text, q) == Some(j)
    decreases j - q
  {
    if q < j {
      StrikeSearchFirst(text, q + 1, j);
    }
  }

  /** The search for one closing backtick stops at the first backtick. */
  lemma {:induction false} TickSearchFirst(text: seq<char>, q: nat, j: nat)
    requires q <= j < |text| && text[j] == '`'
    requires forall k :: q <= k < j ==> At(text, k) != NUL && At(text, k) != '`'
    ensures TickSearch(text, q, 1) == Some(j)
    decreases j - q
  {
    if q < j {
      TickSearchFirst(text, q + 1, j);
    }
  }

  /** The autolink scan stops at the first `>`, space or newline. */
  lemma {:induction false} AutolinkEndFirst(text: seq<char>, q: nat, j: nat)
    requires q <= j && At(text, j) in {'>', ' ', '\n', NUL}
    requires forall k :: q <= k < j ==> At(text, k) !in {'>', ' ', '\n', NUL}
    ensures AutolinkEnd(text, q) == j
    decreases j - q
  {
    if q < j {
      AutolinkEndFirst(text, q + 1, j);
    }
  }

  // ---------------------------------------------------------------- emphasis

  /**
   * `*t*` and `_t_` (one marker) give an `em` span over `t`, `**t**` and
   * `__t__` (two markers) a `strong` span; the loop goes on after the closing
   * run. The content must not hold the marker and must not end in whitespace,
   * otherwise a closer is found elsewhere.
   */
  lemma EmphasisWraps(cfg: Config, refs: seq<RefLink>, m: char, c: nat, t: seq<char>, after: seq<char>)
    requires m == '*' || m == '_'
    requires c == 1 || c == 2
    requires NoNul(t) && m !in t && t != [] && !IsWhitespace(t[|t| - 1])
    ensures var run := if c == 2 then [m, m] else [m];
      Scan(cfg, refs, run + t + run + after, 0) == Span(if c == 2 then "strong" else "em", c, c + |t|, 2 * c + |t|)
  {
    var run := if c == 2 then [m, m] else [m];
    var text := run + t + run + after;
    var q := c + |t|;
    assert text[0] == m;
    assert At(text, 1) == m <==> c == 2 by {
      if c == 1 { assert text[1] == t[0]; }
    }
    forall k | c <= k < q
      ensures At(text, k) != NUL && !IsEmphasisCloser(text, 0, m, c, k)
    {
      assert text[k] == t[k - c];
    }
    assert text[q - 1] == t[|t| - 1];
    assert RunAt(text, q, m, c) by {
      assert text[q] == m;
      if c == 2 { assert text[q + 1] == m; }
    }
    EmphasisSearchFirst(text, 0, m, c, c, q);
    ScanEmphasis(cfg, refs, text, 0);
  }

  // ---------------------------------------------------------- strikethrough

  /** With strikethrough on, `~~t~~` gives a `del` span over `t`; the loop goes on after the closing pair. */
  lemma StrikeWraps(cfg: Config, refs: seq<RefLink>, t: seq<char>, after: seq<char>)
    requires cfg.enableStrikethrough
    requires NoNul(t) && '~' !in t
    ensures Scan(cfg, refs, "~~" + t + "~~" + after, 0) == Span("del", 2, 2 + |t|, 4 + |t|)
  {
    var text := "~~" + t + "~~" + after;
    var q := 2 + |t|;
    forall k | 2 <= k < q
      ensures At(text, k) != NUL && At(text, k) != '~'
    {
      assert text[k] == t[k - 2];
    }
    assert text[q] == '~' && text[q + 1] == '~';
    StrikeSearchFirst(text, 2, q);
    assert Strikethrough(cfg, text, 0) == Some(Span("del", 2, q, q + 2));
  }

  // -------------------------------------------------------------- code span

  /**
   * `` `c` `` gives `<code>` around `c` escaped, whether escaping is on or not,
   * when `c` holds no backtick and has no space at either end.
   */
  lemma CodeSpanEscapes(cfg: Config, refs: seq<RefLink>, c: seq<char>, rest: seq<char>)
    requires NoNul(c) && '`' !in c && c != [] && c[0] != ' ' && c[|c| - 1] != ' '
    ensures Scan(cfg, refs, "`" + c + "`" + rest, 0) == Leaf("<code>" + Escape(c) + "</code>", |c| + 2)
  {
    var text := "`" + c + "`" + rest;
    CodeSpanOfPlain(text, c, rest);
    ScanCode(cfg, refs, text, 0);
  }

  /** The code-span step of `` `c` `` on the text held abstract. */
  lemma CodeSpanOfPlain(text: seq<char>, c: seq<char>, rest: seq<char>)
    requires NoNul(c) && '`' !in c && c != [] && c[0] != ' ' && c[|c| - 1] != ' '
    requires text == "`" + c + "`" + rest
    ensures CodeSpan(text, 0) == Some(Leaf("<code>" + Escape(c) + "</code>", |c| + 2))
  {
    var q := |c| + 1;
    Wrapped("`", c, "`", rest);
    TickSearchFirst(text, 1, q);
    SingleTickSpan(text, q, 1, q);
  }

  /** A code span opened by one backtick and closed by the next, with the spaces at its ends already decided. */
  lemma SingleTickSpan(text: seq<char>, q: nat, ts: nat, te: nat)
    requires 1 < q < |text| && text[0] == '`' && text[1] != '`' && TickSearch(text, 1, 1) == Some(q)
    requires ts == (if text[1] == ' ' then 2 else 1)
    requires te == (if q > ts && text[q - 1] == ' ' then q - 1 else q)
    ensures CodeSpan(text, 0) == Some(Leaf("<code>" + Escape(text[ts..te]) + "</code>", q + 1))
  {
    assert TickRun(text, 1) == 0;
    assert TickRun(text, 0) == 1;
  }

  /**
   * `` ` c ` `` drops exactly one space at each end: the content is `c`, escaped,
   * whatever `c` itself starts or ends with.
   */
  lemma CodeSpanTrimsOneSpace(cfg: Config, refs: seq<RefLink>, c: seq<char>, rest: seq<char>)
    requires NoNul(c) && '`' !in c
    ensures Scan(cfg, refs, "` " + c + " `" + rest, 0) == Leaf("<code>" + Escape(c) + "</code>", |c| + 4)
  {
    var text := "` " + c + " `" + rest;
    CodeSpanOfSpaced(text, c, rest);
    ScanCode(cfg, refs, text, 0);
  }

  /** The code-span step of `` ` c ` `` on the text held abstract. */
  lemma CodeSpanOfSpaced(text: seq<char>, c: seq<char>, rest: seq<char>)
    requires NoNul(c) && '`' !in c
    requires text == "` " + c + " `" + rest
    ensures CodeSpan(text, 0) == Some(Leaf("<code>" + Escape(c) + "</code>", |c| + 4))
  {
    var q := |c| + 3;
    SpacedLayout(text, c, rest);
    TickSearchFirst(text, 1, q);
    SingleTickSpan(text, q, 2, q - 1);
  }

  /** Where the parts of `` ` c ` `` sit, and that no backtick comes before the closing one. */
  lemma SpacedLayout(text: seq<char>, c: seq<char>, rest: seq<char>)
    requires NoNul(c) && '`' !in c
    requires text == "` " + c + " `" + rest
    ensures |c| + 3 < |text| && text[0] == '`' && text[1] == ' ' && text[|c| + 2] == ' ' && text[|c| + 3] == '`'
    ensures text[2..|c| + 2] == c
    ensures forall k :: 1 <= k < |c| + 3 ==> At(text, k) != NUL && At(text, k) != '`'
  {
    Wrapped("` ", c, " `", rest);
    forall k | 1 <= k < |c| + 3
      ensures At(text, k) != NUL && At(text, k) != '`'
    {
      if k == 1 || k == |c| + 2 {
        assert At(text, k) == ' ';
      }
    }
  }

  // --------------------------------------------------------------- autolink

  /** Content that holds none of the characters that end an autolink candidate. */
  predicate AutolinkContent(x: seq<char>)
  {
    NoNul(x) && '>' !in x && ' ' !in x && '\n' !in x
  }

  /** A content that starts with one of the three schemes the autolink accepts. */
  predicate WebScheme(x: seq<char>)
  {
    StartsWith(x, "http://") || StartsWith(x, "https://") || StartsWith(x, "ftp://")
  }

  /** The autolink candidate of `<x>` is `x`. */
  lemma AutolinkSpan(text: seq<char>, x: seq<char>, after: seq<char>)
    requires AutolinkContent(x) && text == "<" + x + ">" + after
    ensures AutolinkEnd(text, 1) == |x| + 1 && text[|x| + 1] == '>' && text[1..|x| + 1] == x
  {
    forall k | 1 <= k < |x| + 1
      ensures At(text, k) !in {'>', ' ', '\n', NUL}
    {
      assert text[k] == x[k - 1];
    }
    AutolinkEndFirst(text, 1, |x| + 1);
    assert text[1..|x| + 1] == x;
  }

  /** With autolinks on, `<x>` for a web address `x` without `@` links to `x`, with `x` as its text, unescaped. */
  lemma AutolinkWeb(cfg: Config, refs: seq<RefLink>, x: seq<char>, after: seq<char>)
    requires cfg.enableAutolinks && AutolinkContent(x) && WebScheme(x) && '@' !in x
    ensures Scan(cfg, refs, "<" + x + ">" + after, 0) == Leaf("<a href=\"" + x + "\">" + x + "</a>", |x| + 2)
  {
    var text := "<" + x + ">" + after;
    AutolinkSpan(text, x, after);
    assert "<a href=\"" + "" + x == "<a href=\"" + x;
    ScanAngle(cfg, refs, text, 0);
  }

  /** With autolinks on, `<x>` for an `x` holding `@` is a `mailto:` link with `x` as its text. */
  lemma AutolinkMail(cfg: Config, refs: seq<RefLink>, x: seq<char>, after: seq<char>)
    requires cfg.enableAutolinks && AutolinkContent(x) && '@' in x
    ensures Scan(cfg, refs, "<" + x + ">" + after, 0)
      == Leaf("<a href=\"mailto:" + x + "\">" + x + "</a>", |x| + 2)
  {
    var text := "<" + x + ">" + after;
    AutolinkSpan(text, x, after);
    assert "<a href=\"" + "mailto:" + x == "<a href=\"mailto:" + x;
    ScanAngle(cfg, refs, text, 0);
  }

  // ------------------------------------------------------------ inline HTML

  /**
   * With inline HTML on, `<x>` that is not taken as an autolink is copied as it
   * stands, from the `<` to the first `>`.
   */
  lemma InlineHtmlCopies(cfg: Config, refs: seq<RefLink>, x: seq<char>, after: seq<char>)
    requires cfg.enableInlineHtml && NoNul(x) && '>' !in x
    requires !cfg.enableAutolinks || ('@' !in x && !WebScheme(x))
    ensures Scan(cfg, refs, "<" + x + ">" + after, 0) == Leaf("<" + x + ">", |x| + 2)
  {
    var text := "<" + x + ">" + after;
    forall k | 1 <= k < |x| + 1
      ensures At(text, k) != '>' && At(text, k) != NUL
    {
      assert text[k] == x[k - 1];
    }
    ScanToFirst(text, 1, '>', |x| + 1);
    assert text[0..|x| + 2] == "<" + x + ">";
    if cfg.enableAutolinks {
      AutolinkRefused(text, x, after);
    }
    ScanAngle(cfg, refs, text, 0);
  }

  /** `<x>` whose content is neither a mail address nor a web address is no autolink. */
  lemma AutolinkRefused(text: seq<char>, x: seq<char>, after: seq<char>)
    requires NoNul(x) && '>' !in x && '@' !in x && !WebScheme(x) && text == "<" + x + ">" + after
    ensures forall cfg: Config :: Autolink(cfg, text, 0).None?
  {
    forall k | 1 <= k < |x| + 1
      ensures text[k] == x[k - 1] && At(text, k) != '>'
    {
    }
    assert At(text, |x| + 1) == '>';
    var e := AutolinkEnd(text, 1);
    if At(text, e) == '>' {
      assert e == |x| + 1;
      assert text[1..e] == x;
    }
  }

  // -------------------------------------------------------------- link text

  /** The bracket balance of `s`: one for each `[`, minus one for each `]`. */
  function Nesting(s: seq<char>): int
  {
    if s == [] then 0
    else (if s[0] == '[' then 1 else if s[0] == ']' then -1 else 0) + Nesting(s[1..])
  }

  /**
   * The link text ends at the first `]` that brings the bracket balance, counted
   * from the enclosing depth, back to zero: the balance never drops below zero
   * before that point, every earlier `]` leaves it positive, and it is zero at
   * the closing `]`.
   */
  lemma {:induction false} LinkTextEndBalance(text: seq<char>, i: nat, depth: nat)
    requires i <= |text|
    ensures var r := LinkTextEnd(text, i, depth);
      r <= |text| && (At(text, r) == ']' ==> depth + Nesting(text[i..r]) == 0)
    ensures var r := LinkTextEnd(text, i, depth);
      forall k :: i <= k <= r ==> depth + Nesting(text[i..k]) >= 0
    ensures var r := LinkTextEnd(text, i, depth);
      forall k :: i <= k < r && text[k] == ']' ==> depth + Nesting(text[i..k]) > 0
    decreases |text| - i
  {
    var r := LinkTextEnd(text, i, depth);
    if At(text, i) == NUL || (text[i] == ']' && depth == 0) {
      assert r == i;
      assert text[i..i] == [];
    } else {
      var d: nat := if text[i] == '[' then depth + 1 else if text[i] == ']' then depth - 1 else depth;
      assert r == LinkTextEnd(text, i + 1, d);
      LinkTextEndBalance(text, i + 1, d);
      forall k | i < k <= r
        ensures depth + Nesting(text[i..k]) == d + Nesting(text[i + 1..k])
      {
        assert text[i..k][1..] == text[i + 1..k];
      }
      assert text[i..i] == [];
    }
  }

  /** The link-text scan passes over a stretch without brackets at any depth. */
  lemma {:induction false} LinkTextEndSkip(text: seq<char>, i: nat, j: nat, depth: nat)
    requires i <= j <= |text|
    requires forall k :: i <= k < j ==> text[k] != '[' && text[k] != ']' && text[k] != NUL
    ensures LinkTextEnd(text, i, depth) == LinkTextEnd(text, j, depth)
    decreases j - i
  {
    if i < j {
      LinkTextEndSkip(text, i + 1, j, depth);
    }
  }

  /** `[a[b]c]`: the inner pair of brackets nests, and the link text runs to the outer `]`. */
  lemma LinkTextEndNested(a: seq<char>, b: seq<char>, c: seq<char>, after: seq<char>)
    requires NoNul(a) && '[' !in a && ']' !in a
    requires NoNul(b) && '[' !in b && ']' !in b
    requires NoNul(c) && '[' !in c && ']' !in c
    ensures var text := "[" + a + "[" + b + "]" + c + "]" + after;
      LinkTextEnd(text, 1, 0) == |a| + |b| + |c| + 3 && text[1..|a| + |b| + |c| + 3] == a + "[" + b + "]" + c
  {
    var text := "[" + a + "[" + b + "]" + c + "]" + after;
    NestedLayout(a, b, c, after);
    NestedScan(text, a, b, c);
  }

  /** The link-text scan over `[a[b]c]` laid out in a text held abstract. */
  lemma NestedScan(text: seq<char>, a: seq<char>, b: seq<char>, c: seq<char>)
    requires NoNul(a) && '[' !in a && ']' !in a
    requires NoNul(b) && '[' !in b && ']' !in b
    requires NoNul(c) && '[' !in c && ']' !in c
    requires var open, close, end := |a| + 1, |a| + |b| + 2, |a| + |b| + |c| + 3;
      end < |text| && text[1..open] == a && text[open] == '[' && text[open + 1..close] == b && text[close] == ']'
      && text[close + 1..end] == c && text[end] == ']'
    ensures LinkTextEnd(text, 1, 0) == |a| + |b| + |c| + 3
  {
    var open, close, end := |a| + 1, |a| + |b| + 2, |a| + |b| + |c| + 3;
    SkipPart(text, 1, a, 0);
    InnerPair(text, open, b, 0);
    SkipPart(text, close + 1, c, 0);
    BracketStep(text, end, 0);
  }

  /** A bracket pair `[b]` with a bracket-free `b` is passed over as a whole, at any depth. */
  lemma InnerPair(text: seq<char>, i: nat, b: seq<char>, depth: nat)
    requires NoNul(b) && '[' !in b && ']' !in b
    requires i + |b| + 1 < |text| && text[i] == '[' && text[i + 1..i + |b| + 1] == b && text[i + |b| + 1] == ']'
    ensures LinkTextEnd(text, i, depth) == LinkTextEnd(text, i + |b| + 2, depth)
  {
    BracketStep(text, i, depth);
    SkipPart(text, i + 1, b, depth + 1);
    BracketStep(text, i + |b| + 1, depth + 1);
  }

  /** One bracket of the link-text scan: `[` goes one level deeper, `]` one level up or, at depth zero, ends the text. */
  lemma BracketStep(text: seq<char>, i: nat, depth: nat)
    requires i < |text| && (text[i] == '[' || text[i] == ']')
    ensures text[i] == '[' ==> LinkTextEnd(text, i, depth) == LinkTextEnd(text, i + 1, depth + 1)
    ensures text[i] == ']' && depth > 0 ==> LinkTextEnd(text, i, depth) == LinkTextEnd(text, i + 1, depth - 1)
    ensures text[i] == ']' && depth == 0 ==> LinkTextEnd(text, i, depth) == i
  {
  }

  /** Where the parts of `[a[b]c]` followed by `after` sit. */
  lemma NestedLayout(a: seq<char>, b: seq<char>, c: seq<char>, after: seq<char>)
    ensures var text := "[" + a + "[" + b + "]" + c + "]" + after;
      var open, close, end := |a| + 1, |a| + |b| + 2, |a| + |b| + |c| + 3;
      end < |text| && text[1..open] == a && text[open] == '[' && text[open + 1..close] == b && text[close] == ']'
      && text[close + 1..end] == c && text[end] == ']' && text[1..end] == a + "[" + b + "]" + c
  {
    var text := "[" + a + "[" + b + "]" + c + "]" + after;
    assert text == "[" + (a + "[" + b + "]" + c) + ("]" + after);
    assert text == "[" + a + ("[" + (b + ("]" + (c + "]" + after))));
  }

  /** The link-text scan passes over a bracket-free part `x` of the text at any depth. */
  lemma SkipPart(text: seq<char>, i: nat, x: seq<char>, depth: nat)
    requires i + |x| <= |text| && text[i..i + |x|] == x && NoNul(x) && '[' !in x && ']' !in x
    ensures LinkTextEnd(text, i, depth) == LinkTextEnd(text, i + |x|, depth)
  {
    forall k | i <= k < i + |x|
      ensures text[k] != '[' && text[k] != ']' && text[k] != NUL
    {
      assert text[k] == x[k - i];
    }
    LinkTextEndSkip(text, i, i + |x|, depth);
  }

  /** `[a[b]c](dest)` is one link whose text is `a[b]c`, brackets included; the loop goes on after the `)`. */
  lemma NestedInlineLinkScan(cfg: Config, refs: seq<RefLink>, a: seq<char>, b: seq<char>, c: seq<char>, dest: seq<char>, after: seq<char>)
    requires NoNul(a) && '[' !in a && ']' !in a
    requires NoNul(b) && '[' !in b && ']' !in b
    requires NoNul(c) && '[' !in c && ']' !in c
    requires NoNul(dest) && ')' !in dest && |dest| < MaxLinkLength
    ensures var t := a + "[" + b + "]" + c;
      Scan(cfg, refs, "[" + t + "](" + dest + ")" + after, 0) == Anchor(Destination(dest), t, |t| + |dest| + 4)
  {
    var t := a + "[" + b + "]" + c;
    var text := "[" + t + "](" + dest + ")" + after;
    assert LinkTextEnd(text, 1, 0) == |t| + 1 by {
      NestedRegrouped(a, b, c, "(" + dest + ")" + after, text);
      LinkTextEndNested(a, b, c, "(" + dest + ")" + after);
    }
    LinkScanOf(cfg, refs, text, t, dest, after);
  }

  /** The same text, grouped as a nested link text followed by the rest. */
  lemma NestedRegrouped(a: seq<char>, b: seq<char>, c: seq<char>, rest: seq<char>, text: seq<char>)
    requires text == "[" + (a + "[" + b + "]" + c) + "]" + rest
    ensures text == "[" + a + "[" + b + "]" + c + "]" + rest
  {
  }

  /**
   * `[t](dest)` is one step of the loop whenever the link-text scan closes at
   * the `]` after `t`: a link to `dest` whose text is `t`.
   */
  lemma LinkScanOf(cfg: Config, refs: seq<RefLink>, text: seq<char>, t: seq<char>, dest: seq<char>, after: seq<char>)
    requires text == "[" + t + "](" + dest + ")" + after && LinkTextEnd(text, 1, 0) == |t| + 1
    requires NoNul(dest) && ')' !in dest && |dest| < MaxLinkLength
    ensures Scan(cfg, refs, text, 0) == Anchor(Destination(dest), t, |t| + |dest| + 4)
  {
    var textEnd, urlEnd := |t| + 1, |t| + 3 + |dest|;
    assert text[textEnd] == ']' && text[textEnd + 1] == '(' && text[urlEnd] == ')';
    forall k | textEnd + 2 <= k < urlEnd
      ensures At(text, k) != ')' && At(text, k) != NUL
    {
      assert text[k] == dest[k - textEnd - 2];
    }
    ScanToFirst(text, textEnd + 2, ')', urlEnd);
    assert text[1..textEnd] == t;
    assert text[textEnd + 2..urlEnd] == dest;
    assert InlineLink(text, 0, textEnd) == Some(Anchor(Destination(dest), t, urlEnd + 1));
    ScanInlineLink(cfg, refs, text, textEnd, Anchor(Destination(dest), t, urlEnd + 1));
  }
}
