/**
 * The block pass as the C code runs it (marker.c:344-362, 1134-1783): each
 * line is copied into the parser's reusable line buffer and trimmed in place,
 * classified by the scanning loops of the `is_*` helpers, and rendered
 * straight into the output buffer. Every method is proved to append exactly
 * what the functions of `BlockSyntax` describe.
 */
module BlockEngine {
  import opened Options
  import opened Chars
  import opened Results
  import opened Configuration
  import opened ReferenceLinks
  import opened OutputBuffer
  import opened Escaping
  import opened InlineSyntax
  import opened InlineEngine
  import opened Parsers
  import opened BlockSyntax

  // ---------------------------------------------------------------------------
  // Lines
  // ---------------------------------------------------------------------------

  /** `memmove(a, a + start, n - start + 1)`: the string from `start`, terminator included, moved to the front. */
  method ShiftLeft(a: array<char>, start: nat, n: nat)
    requires start <= n < a.Length
    modifies a
    ensures a[..n - start + 1] == old(a[start..n + 1])
  {
    ghost var full := a[..];
    var i := 0;
    while i <= n - start
      invariant i <= n - start + 1
      invariant forall k :: 0 <= k < i ==> a[k] == full[start + k]
      invariant forall k :: i <= k < a.Length ==> a[k] == full[k]
    {
      a[i] := a[start + i];
      i := i + 1;
    }
  }

  /** The trailing loop of `trim_whitespace`: whitespace before the terminator at `len0` is overwritten with terminators. */
  method DropTrailing(a: array<char>, len0: nat) returns (len: nat)
    requires len0 < a.Length && a[len0] == NUL
    modifies a
    ensures len <= len0 && a[len] == NUL && a[..len] == old(a[..len])
    ensures len == 0 || !IsWhitespace(a[len - 1])
    ensures forall k :: len <= k < len0 ==> IsWhitespace(old(a[..len0])[k])
  {
    len := len0;
    while len > 0 && IsWhitespace(a[len - 1])
      invariant len <= len0 && a[len] == NUL && a[..len] == old(a[..len])
      invariant forall k :: len <= k < len0 ==> IsWhitespace(old(a[..len0])[k])
    {
      len := len - 1;
      a[len] := NUL;
    }
  }

  /**
   * `trim_whitespace` on the C string `a[..n]`: leading whitespace is removed
   * by moving the rest, terminator included, to the front; trailing whitespace
   * is overwritten with terminators. The new length is returned.
   */
  method TrimWhitespace(a: array<char>, n: nat) returns (m: nat)
    requires n < a.Length && a[n] == NUL && NoNul(a[..n])
    modifies a
    ensures m <= n && a[..m] == Trim(old(a[..n])) && a[m] == NUL
  {
    ghost var s := a[..n];
    var start := 0;
    while IsWhitespace(a[start])
      invariant start <= n
      invariant forall k :: 0 <= k < start ==> IsWhitespace(s[k])
      decreases n - start
    {
      start := start + 1;
    }
    assert start < n ==> !IsWhitespace(s[start]);
    if start != 0 {
      ShiftLeft(a, start, n);
    }
    ghost var mid := a[..n - start];
    assert mid == s[start..] && a[n - start] == NUL by {
      assert a[..n - start + 1] == s[start..] + [NUL];
    }
    m := DropTrailing(a, n - start);
    assert a[..m] == s[start..start + m] by {
      assert a[..m] == mid[..m];
    }
    assert m > 0 ==> !IsWhitespace(s[start + m - 1]) by {
      if m > 0 {
        assert s[start + m - 1] == mid[m - 1] == a[m - 1];
      }
    }
    forall k | start + m <= k < n
      ensures IsWhitespace(s[k])
    {
      assert s[k] == mid[k - start];
    }
    TrimExact(s, start, start + m);
  }

  /** The loop measuring the line that starts at `from`: characters up to a newline or the terminator. */
  method LineLength(md: seq<char>, from: nat) returns (len: nat)
    requires from <= |md|
    ensures from + len == LineEnd(md, from) <= |md|
  {
    len := 0;
    while At(md, from + len) != NUL && At(md, from + len) != '\n'
      invariant from + len <= |md|
      invariant forall k :: from <= k < from + len ==> At(md, k) != '\n' && At(md, k) != NUL
      decreases |md| - from - len
    {
      len := len + 1;
    }
    ScanToFirst(md, from, '\n', from + len);
  }

  /** Copies the `len` characters at `from` into `a`, terminates them and trims them in place. */
  method CopyTrimmed(md: seq<char>, from: nat, len: nat, a: array<char>) returns (m: nat)
    requires from <= |md| && from + len == LineEnd(md, from) && len < a.Length
    modifies a
    ensures m < a.Length && a[..m] == LineAt(md, from)
  {
    forall k | 0 <= k < len {
      a[k] := md[from + k];
    }
    a[len] := NUL;
    assert a[..len] == md[from..from + len];
    assert NoNul(a[..len]) by {
      assert forall k :: 0 <= k < len ==> a[k] == At(md, from + k);
    }
    m := TrimWhitespace(a, len);
  }

  /**
   * Reads the line starting at `pos` into the parser's line buffer, which is
   * replaced by a larger one when the line does not fit, and trims it.
   */
  method ReadLine(p: Parser, md: seq<char>, pos: nat) returns (line: seq<char>, next: nat)
    requires pos <= |md|
    modifies p, p.lineBuffer
    ensures p.refs == old(p.refs)
    ensures p.lineBuffer == old(p.lineBuffer) || fresh(p.lineBuffer)
    ensures line == LineAt(md, pos) && next == After(md, pos)
  {
    var len := LineLength(md, pos);
    if len >= p.lineBuffer.Length {
      p.lineBuffer := new char[len + 1];
    }
    var m := CopyTrimmed(md, pos, len, p.lineBuffer);
    line := p.lineBuffer[..m];
    next := SkipNewline(md, pos, len);
  }

  /** The start of the line after the one at `from`, which is `len` characters long: past its newline, if any. */
  method SkipNewline(md: seq<char>, from: nat, len: nat) returns (next: nat)
    requires from <= |md| && from + len == LineEnd(md, from)
    ensures next == After(md, from)
  {
    next := from + len;
    if At(md, next) == '\n' {
      next := next + 1;
    }
  }

  // ---------------------------------------------------------------------------
  // Classifiers with loops
  // ---------------------------------------------------------------------------

  /** `is_list_item`. */
  method CheckListItem(line: seq<char>) returns (b: bool)
    ensures b == IsListItem(line)
  {
    if (At(line, 0) == '-' || At(line, 0) == '*' || At(line, 0) == '+') && At(line, 1) == ' ' {
      return true;
    }
    var i := 0;
    while IsDigit(At(line, i))
      invariant DigitRun(line, i) == DigitRun(line, 0)
      decreases |line| - i
    {
      i := i + 1;
    }
    return i > 0 && At(line, i) == '.' && At(line, i + 1) == ' ';
  }

  /** `is_horizontal_rule`. */
  method CheckHorizontalRule(line: seq<char>) returns (b: bool)
    ensures b == IsHorizontalRule(line)
  {
    var count := 0;
    var marker := NUL;
    var i := 0;
    while At(line, i) != NUL
      invariant RuleScan(line, i, marker, count) == IsHorizontalRule(line)
      decreases |line| - i
    {
      var c := line[i];
      if c == '-' || c == '*' || c == '_' {
        if marker == NUL {
          marker := c;
        } else if marker != c {
          return false;
        }
        count := count + 1;
      } else if !IsWhitespace(c) {
        return false;
      }
      i := i + 1;
    }
    return count >= 3;
  }

  /** `is_table_separator`. */
  method CheckTableSeparator(line: seq<char>) returns (b: bool)
    ensures b == IsTableSeparator(line)
  {
    var pipe, dash := false, false;
    var i := 0;
    while At(line, i) != NUL
      invariant SeparatorScan(line, i, pipe, dash) == IsTableSeparator(line)
      decreases |line| - i
    {
      if line[i] == '|' {
        pipe := true;
      } else if line[i] == '-' {
        dash := true;
      } else if line[i] != ' ' && line[i] != ':' {
        return false;
      }
      i := i + 1;
    }
    return pipe && dash;
  }

  /** The loops skipping spaces and tabs in the reference-definition parse. */
  method ScanBlanks(line: seq<char>, from: nat) returns (i: nat)
    requires from <= |line|
    ensures i == SkipBlanks(line, from)
  {
    i := from;
    while At(line, i) == ' ' || At(line, i) == '\t'
      invariant i <= |line| && SkipBlanks(line, i) == SkipBlanks(line, from)
      decreases |line| - i
    {
      i := i + 1;
    }
  }

  /** The loop finding the end of the url. */
  method ScanWord(line: seq<char>, from: nat) returns (i: nat)
    requires from <= |line|
    ensures i == WordEnd(line, from)
  {
    i := from;
    while At(line, i) != NUL && !IsWhitespace(At(line, i))
      invariant i <= |line| && WordEnd(line, i) == WordEnd(line, from)
      decreases |line| - i
    {
      i := i + 1;
    }
  }

  /** The title: after an opening quote, up to the last quote found by `strrchr`. */
  method ScanTitle(line: seq<char>, from: nat) returns (title: Option<seq<char>>)
    requires from <= |line|
    ensures title == TitleAt(line, from)
  {
    title := None;
    if At(line, from) == '"' {
      var rest := line[from + 1..];
      var titleEnd := LastIndexOf(rest, '"');
      if titleEnd.Some? {
        title := Some(rest[..titleEnd.value]);
      }
    }
  }

  /**
   * The reference-definition test and parse inside the main loop: `strchr`
   * finds the first `]`, which a `:` must follow.
   */
  method ParseDefinition(line: seq<char>) returns (def: Option<RefLink>)
    ensures def == RefDefinition(line)
  {
    if At(line, 0) != '[' {
      return None;
    }
    var closing := ScanTo(line, 0, ']');
    if At(line, closing) != ']' || At(line, closing + 1) != ':' {
      return None;
    }
    var urlStart := ScanBlanks(line, closing + 2);
    var urlEnd := ScanWord(line, urlStart);
    var titleStart := ScanBlanks(line, urlEnd);
    var title := ScanTitle(line, titleStart);
    RefDefinitionAt(line, closing, urlStart, urlEnd, titleStart);
    return Some(RefLink(line[1..closing], line[urlStart..urlEnd], title));
  }

  // ---------------------------------------------------------------------------
  // Block renderers
  // ---------------------------------------------------------------------------

  /**
   * The shape shared by the renderers: an opening tag, the inline rendering of
   * `text` from `pos` to its end, a closing tag.
   */
  method AppendInline(cfg: Config, refs: seq<RefLink>, open: seq<char>, text: seq<char>, pos: nat, close: seq<char>, out: Buffer)
    requires out.Valid()
    modifies out.Repr
    ensures out.Valid() && fresh(out.Repr - old(out.Repr))
    ensures out.Contents() == old(out.Contents()) + (open + Render(cfg, refs, text, pos, |text|) + close)
  {
    ghost var before := out.Contents();
    out.Append(open);
    var _ := ParseInlineContent(cfg, refs, text, pos, |text|, out);
    out.Append(close);
    SeqAssoc(before, open, Render(cfg, refs, text, pos, |text|));
    SeqAssoc(before, open + Render(cfg, refs, text, pos, |text|), close);
  }

  /** The loops of `parse_header` before the output: the level, capped at six, and where the text starts. */
  method HeaderLayout(line: seq<char>) returns (level: nat, start: nat)
    ensures level == HeadingLevel(line) && start == SkipSpaces(line, level)
  {
    level := 0;
    while At(line, level) == '#' && level < 6
      invariant level <= 6 && HashRun(line, level) == HeadingLevel(line)
    {
      level := level + 1;
    }
    start := level;
    while At(line, start) == ' '
      invariant level <= start && SkipSpaces(line, start) == SkipSpaces(line, level)
      decreases |line| - start
    {
      start := start + 1;
    }
  }

  /** `parse_header`: INVALID_INPUT for a line not starting with `#`, which is left unrendered. */
  method AppendHeader(cfg: Config, refs: seq<RefLink>, line: seq<char>, out: Buffer) returns (r: ResultCode)
    requires out.Valid()
    modifies out.Repr
    ensures out.Valid() && fresh(out.Repr - old(out.Repr))
    ensures r == (if IsHeaderLine(line) then Ok else InvalidInput)
    ensures out.Contents() == old(out.Contents()) + (if r == Ok then HeaderHtml(cfg, refs, line) else [])
  {
    if !IsHeaderLine(line) {
      return InvalidInput;
    }
    var level, start := HeaderLayout(line);
    var tag := HeadingTag(level);
    AppendInline(cfg, refs, "<" + tag + ">", line, start, "</" + tag + ">\n", out);
    SeqAssoc("<" + tag + ">" + Render(cfg, refs, line, start, |line|), "</" + tag, ">\n");
    SeqAssoc("<" + tag + ">" + Render(cfg, refs, line, start, |line|), "</", tag);
    return Ok;
  }

  /** `parse_blockquote`: INVALID_INPUT for a line not starting with `>`. */
  method AppendBlockquote(cfg: Config, refs: seq<RefLink>, line: seq<char>, out: Buffer) returns (r: ResultCode)
    requires out.Valid()
    modifies out.Repr
    ensures out.Valid() && fresh(out.Repr - old(out.Repr))
    ensures r == (if IsBlockquote(line) then Ok else InvalidInput)
    ensures out.Contents() == old(out.Contents()) + (if r == Ok then BlockquoteHtml(cfg, refs, line) else [])
  {
    if !IsBlockquote(line) {
      return InvalidInput;
    }
    var start := 1;
    if At(line, start) == ' ' {
      start := start + 1;
    }
    AppendInline(cfg, refs, "<blockquote>", line, start, "</blockquote>\n", out);
    return Ok;
  }

  /** The layout loops of `parse_list_item`: the kind of item, the checkbox and where the text starts. */
  method ItemLayout(cfg: Config, line: seq<char>) returns (ordered: bool, task: bool, checked: bool, start: nat)
    ensures ordered == IsDigit(At(line, 0))
    ensures task == TaskOf(cfg, line).Box? && (task ==> checked == TaskOf(cfg, line).checked)
    ensures start == if task then ItemStart(line) + 4 else ItemStart(line)
  {
    start := 0;
    ordered := false;
    if IsDigit(At(line, 0)) {
      ordered := true;
      while IsDigit(At(line, start))
        invariant DigitRun(line, start) == DigitRun(line, 0)
        decreases |line| - start
      {
        start := start + 1;
      }
      start := start + 2;
    } else {
      start := 2;
    }
    task, checked := false, false;
    if cfg.enableTaskLists && At(line, start) == '['
      && (At(line, start + 1) == ' ' || At(line, start + 1) == 'x' || At(line, start + 1) == 'X')
      && At(line, start + 2) == ']' && At(line, start + 3) == ' '
    {
      task := true;
      checked := At(line, start + 1) == 'x' || At(line, start + 1) == 'X';
      start := start + 4;
    }
  }

  /** The appends of `parse_list_item` before its text, as one string. */
  method ItemOpenTag(task: bool, checked: bool) returns (open: seq<char>)
    ensures open == ItemOpen(if task then Box(checked) else NoBox)
  {
    open := "<li";
    if task {
      open := open + " class=\"task-list-item\"";
    }
    open := open + ">";
    if task {
      open := open + "<input type=\"checkbox\"";
      if checked {
        open := open + " checked";
      }
      open := open + " disabled> ";
    }
  }

  /**
   * `parse_list_item`: INVALID_INPUT for a line that is not a list item;
   * otherwise the item, and whether it belongs to an ordered list.
   */
  method AppendListItem(cfg: Config, refs: seq<RefLink>, line: seq<char>, out: Buffer)
    returns (r: ResultCode, ordered: bool)
    requires out.Valid()
    modifies out.Repr
    ensures out.Valid() && fresh(out.Repr - old(out.Repr))
    ensures r == (if IsListItem(line) then Ok else InvalidInput)
    ensures r == Ok ==> ordered == IsDigit(At(line, 0))
    ensures out.Contents() == old(out.Contents()) + (if r == Ok then ListItemHtml(cfg, refs, line) else [])
  {
    var item := CheckListItem(line);
    if !item {
      return InvalidInput, false;
    }
    var task, checked, start;
    ordered, task, checked, start := ItemLayout(cfg, line);
    var open := ItemOpenTag(task, checked);
    AppendInline(cfg, refs, open, line, start, "</li>\n", out);
    return Ok, ordered;
  }

  /**
   * The trimming of one table cell `line[from..to]`: trailing whitespace is
   * dropped first, then leading whitespace.
   */
  method TrimCell(line: seq<char>, from: nat, to: nat) returns (cs: nat, ce: nat)
    requires from <= to <= |line|
    ensures from <= cs <= ce <= to && line[cs..ce] == Trim(line[from..to])
  {
    ce := to;
    while ce > from && IsWhitespace(line[ce - 1])
      invariant from <= ce <= to && forall k :: ce <= k < to ==> IsWhitespace(line[k])
    {
      ce := ce - 1;
    }
    cs := from;
    while cs < ce && IsWhitespace(line[cs])
      invariant from <= cs <= ce && forall k :: from <= k < cs ==> IsWhitespace(line[k])
    {
      cs := cs + 1;
    }
    TrimInside(line, from, to, cs, ce);
  }

  /** `TrimExact` for a stretch `line[from..to]` of a longer line. */
  lemma TrimInside(line: seq<char>, from: nat, to: nat, cs: nat, ce: nat)
    requires from <= cs <= ce <= to <= |line|
    requires forall k :: from <= k < cs ==> IsWhitespace(line[k])
    requires forall k :: ce <= k < to ==> IsWhitespace(line[k])
    requires cs < ce ==> !IsWhitespace(line[cs]) && !IsWhitespace(line[ce - 1])
    ensures line[cs..ce] == Trim(line[from..to])
  {
    var cell := line[from..to];
    assert forall k :: 0 <= k < |cell| ==> cell[k] == line[from + k];
    TrimExact(cell, cs - from, ce - from);
    assert cell[cs - from..ce - from] == line[cs..ce];
  }

  /** The scan past the pipe that ends a cell and the whitespace after it. */
  method SkipToCell(line: seq<char>, e: nat) returns (pos: nat)
    requires e <= |line| && (e == |line| || line[e] == '|')
    ensures pos == NextCell(line, e)
  {
    pos := e;
    if pos < |line| && line[pos] == '|' {
      pos := pos + 1;
    }
    while pos < |line| && IsWhitespace(line[pos])
      invariant pos <= |line| && SkipSpace(line, pos) == NextCell(line, e)
    {
      pos := pos + 1;
    }
  }

  /**
   * One cell of `parse_table_row`, starting at `from`: its trimmed text is
   * copied out and rendered between the cell tags; the position of the next
   * cell is returned.
   */
  method AppendCell(cfg: Config, refs: seq<RefLink>, line: seq<char>, from: nat, tag: seq<char>, out: Buffer)
    returns (next: nat)
    requires from < |line| && out.Valid()
    modifies out.Repr
    ensures out.Valid() && fresh(out.Repr - old(out.Repr))
    ensures from < next <= |line|
    ensures Cells(line, from) == [Trim(line[from..CellEnd(line, from)])] + Cells(line, next)
    ensures out.Contents() == old(out.Contents()) + CellHtml(cfg, refs, tag, Trim(line[from..CellEnd(line, from)]))
  {
    var pos := from;
    while pos < |line| && line[pos] != '|'
      invariant from <= pos <= |line| && CellEnd(line, pos) == CellEnd(line, from)
    {
      pos := pos + 1;
    }
    var cs, ce := TrimCell(line, from, pos);
    var cell := line[cs..ce];
    AppendInline(cfg, refs, "<" + tag + ">", cell, 0, "</" + tag + ">", out);
    SeqAssoc("<" + tag + ">" + Render(cfg, refs, cell, 0, |cell|), "</", tag);
    SeqAssoc("<" + tag + ">" + Render(cfg, refs, cell, 0, |cell|), "</" + tag, ">");
    next := SkipToCell(line, pos);
  }

  /** The loop of `parse_table_row` skipping leading whitespace and pipes. */
  method SkipToRow(line: seq<char>) returns (pos: nat)
    ensures pos == RowStart(line, 0)
  {
    pos := 0;
    while pos < |line| && (IsWhitespace(line[pos]) || line[pos] == '|')
      invariant pos <= |line| && RowStart(line, pos) == RowStart(line, 0)
    {
      pos := pos + 1;
    }
  }

  /** Moving the first element of `rest` to the end of `done`. */
  lemma ShiftFirst<T>(done: seq<T>, rest: seq<T>, tail: seq<T>)
    requires rest != [] && rest == [rest[0]] + tail
    ensures done + rest == (done + [rest[0]]) + tail
  {
  }

  /** The cell loop of `parse_table_row`, from the cell starting at `from` to the end of the line. */
  method AppendCells(cfg: Config, refs: seq<RefLink>, line: seq<char>, from: nat, tag: seq<char>, out: Buffer)
    requires from <= |line| && out.Valid()
    modifies out.Repr
    ensures out.Valid() && fresh(out.Repr - old(out.Repr))
    ensures out.Contents() == old(out.Contents()) + CellsHtml(cfg, refs, tag, Cells(line, from))
  {
    var pos := from;
    ghost var done: seq<seq<char>> := [];
    assert done + Cells(line, pos) == Cells(line, from);
    while pos < |line|
      invariant pos <= |line| && Cells(line, from) == done + Cells(line, pos)
      invariant out.Valid() && fresh(out.Repr - old(out.Repr))
      invariant out.Contents() == old(out.Contents()) + CellsHtml(cfg, refs, tag, done)
      decreases |line| - pos
    {
      ghost var cell := Trim(line[pos..CellEnd(line, pos)]);
      ghost var rest := Cells(line, pos);
      pos := AppendCell(cfg, refs, line, pos, tag, out);
      CellsHtmlSnoc(cfg, refs, tag, done, cell);
      SeqAssoc(old(out.Contents()), CellsHtml(cfg, refs, tag, done), CellHtml(cfg, refs, tag, cell));
      ShiftFirst(done, rest, Cells(line, pos));
      done := done + [cell];
    }
    assert Cells(line, pos) == [] && done + [] == done;
  }

  /** `parse_table_row`: one `th` (header) or `td` cell per pipe-separated column. */
  method AppendTableRow(cfg: Config, refs: seq<RefLink>, line: seq<char>, header: bool, out: Buffer)
    requires out.Valid()
    modifies out.Repr
    ensures out.Valid() && fresh(out.Repr - old(out.Repr))
    ensures out.Contents() == old(out.Contents()) + TableRowHtml(cfg, refs, line, header)
  {
    var tag := if header then "th" else "td";
    out.Append("<tr>");
    var pos := SkipToRow(line);
    AppendCells(cfg, refs, line, pos, tag, out);
    out.Append("</tr>\n");
    ghost var cells := CellsHtml(cfg, refs, tag, Cells(line, pos));
    SeqAssoc(old(out.Contents()), "<tr>", cells);
    SeqAssoc(old(out.Contents()), "<tr>" + cells, "</tr>\n");
  }

  /** `parse_paragraph`. */
  method AppendParagraph(cfg: Config, refs: seq<RefLink>, line: seq<char>, out: Buffer)
    requires out.Valid()
    modifies out.Repr
    ensures out.Valid() && fresh(out.Repr - old(out.Repr))
    ensures out.Contents() == old(out.Contents()) + ParagraphHtml(cfg, refs, line)
  {
    AppendInline(cfg, refs, "<p>", line, 0, "</p>\n", out);
  }

  // ---------------------------------------------------------------------------
  // The main loop of `marker_parse`
  // ---------------------------------------------------------------------------

  /** The closing of an open list, then of an open table, that most kinds of line begin with. */
  method CloseOpen(st: BlockState, out: Buffer) returns (st2: BlockState)
    requires out.Valid()
    modifies out.Repr
    ensures out.Valid() && fresh(out.Repr - old(out.Repr))
    ensures out.Contents() == old(out.Contents()) + Closers(st) && st2 == Closed(st)
  {
    st2 := st;
    if st2.inList {
      out.Append(ListClose(st2.ordered));
      st2 := st2.(inList := false);
    }
    if st2.inTable {
      out.Append(TableClose);
      st2 := st2.(inTable := false);
    }
  }

  /** The look-ahead of the table branch: the next line copied into a fresh array and trimmed. */
  method PeekLine(md: seq<char>, from: nat) returns (line: seq<char>, next: nat)
    requires from <= |md|
    ensures line == LineAt(md, from) && next == After(md, from)
  {
    var len := LineLength(md, from);
    var a := new char[len + 1];
    var m := CopyTrimmed(md, from, len, a);
    line := a[..m];
    next := SkipNewline(md, from, len);
  }

  /** The start of the list-item branch: an open table is closed, and a list opened when none is. */
  method OpenList(line: seq<char>, st: BlockState, out: Buffer) returns (st2: BlockState)
    requires out.Valid()
    modifies out.Repr
    ensures out.Valid() && fresh(out.Repr - old(out.Repr))
    ensures st2 == st.(inList := true, ordered := if st.inList then st.ordered else IsDigit(At(line, 0)), inTable := false)
    ensures out.Contents() == old(out.Contents())
      + ((if st.inTable then TableClose else []) + (if st.inList then [] else ListOpen(st2.ordered)))
  {
    st2 := st;
    if st2.inTable {
      out.Append(TableClose);
      st2 := st2.(inTable := false);
    }
    if !st2.inList {
      st2 := st2.(ordered := IsDigit(At(line, 0)));
      out.Append(ListOpen(st2.ordered));
      st2 := st2.(inList := true);
    }
  }

  /** The list-item branch: `OpenList`, then the item. */
  method ListLine(cfg: Config, refs: seq<RefLink>, line: seq<char>, st: BlockState, out: Buffer) returns (st2: BlockState)
    requires IsListItem(line) && out.Valid()
    modifies out.Repr
    ensures out.Valid() && fresh(out.Repr - old(out.Repr))
    ensures st2 == st.(inList := true, ordered := if st.inList then st.ordered else IsDigit(At(line, 0)), inTable := false)
    ensures out.Contents() == old(out.Contents())
      + ((if st.inTable then TableClose else []) + (if st.inList then [] else ListOpen(st2.ordered)) + ListItemHtml(cfg, refs, line))
  {
    st2 := OpenList(line, st, out);
    ghost var lead := out.Contents()[|old(out.Contents())|..];
    assert out.Contents() == old(out.Contents()) + lead;
    var _, _ := AppendListItem(cfg, refs, line, out);
    SeqAssoc(old(out.Contents()), lead, ListItemHtml(cfg, refs, line));
  }

  /** The closing of an open list that the table branch begins with. */
  method EndList(st: BlockState, out: Buffer) returns (st2: BlockState)
    requires out.Valid()
    modifies out.Repr
    ensures out.Valid() && fresh(out.Repr - old(out.Repr))
    ensures out.Contents() == old(out.Contents()) + (if st.inList then ListClose(st.ordered) else [])
    ensures st2 == st.(inList := false)
  {
    st2 := st;
    if st2.inList {
      out.Append(ListClose(st2.ordered));
      st2 := st2.(inList := false);
    }
  }

  /** A header row: the table is opened unless one is open, then the row and the start of the body. */
  method HeaderRow(cfg: Config, refs: seq<RefLink>, line: seq<char>, inTable: bool, out: Buffer)
    requires out.Valid()
    modifies out.Repr
    ensures out.Valid() && fresh(out.Repr - old(out.Repr))
    ensures out.Contents() == old(out.Contents())
      + ((if inTable then [] else "<table>\n<thead>\n") + TableRowHtml(cfg, refs, line, true) + "</thead>\n<tbody>\n")
  {
    if !inTable {
      out.Append("<table>\n<thead>\n");
    }
    ghost var open := if inTable then [] else "<table>\n<thead>\n";
    assert out.Contents() == old(out.Contents()) + open;
    AppendTableRow(cfg, refs, line, true, out);
    out.Append("</thead>\n<tbody>\n");
    SeqAssoc4(old(out.Contents()), open, TableRowHtml(cfg, refs, line, true), "</thead>\n<tbody>\n", []);
    assert open + TableRowHtml(cfg, refs, line, true) + "</thead>\n<tbody>\n" + []
      == open + TableRowHtml(cfg, refs, line, true) + "</thead>\n<tbody>\n";
    assert out.Contents() == old(out.Contents()) + open + TableRowHtml(cfg, refs, line, true) + "</thead>\n<tbody>\n" + [];
  }

  /** A piped line with no separator below: a data row inside a table, a paragraph outside one. */
  method BodyRow(cfg: Config, refs: seq<RefLink>, line: seq<char>, inTable: bool, out: Buffer)
    requires out.Valid()
    modifies out.Repr
    ensures out.Valid() && fresh(out.Repr - old(out.Repr))
    ensures out.Contents() == old(out.Contents())
      + (if inTable then TableRowHtml(cfg, refs, line, false) else ParagraphHtml(cfg, refs, line))
  {
    if inTable {
      AppendTableRow(cfg, refs, line, false, out);
    } else {
      AppendParagraph(cfg, refs, line, out);
    }
  }

  /**
   * The output of the table branch: an open list is closed, then a header row
   * when a separator follows, else a data row or a paragraph.
   */
  method TableRow(cfg: Config, refs: seq<RefLink>, line: seq<char>, separator: bool, st: BlockState, out: Buffer)
    requires out.Valid()
    modifies out.Repr
    ensures out.Valid() && fresh(out.Repr - old(out.Repr))
    ensures out.Contents() == old(out.Contents())
      + ((if st.inList then ListClose(st.ordered) else [])
         + (if separator
            then (if st.inTable then [] else "<table>\n<thead>\n") + TableRowHtml(cfg, refs, line, true) + "</thead>\n<tbody>\n"
            else if st.inTable then TableRowHtml(cfg, refs, line, false) else ParagraphHtml(cfg, refs, line)))
  {
    var st2 := EndList(st, out);
    ghost var lead := if st.inList then ListClose(st.ordered) else [];
    ghost var row :=
      if separator
      then (if st.inTable then [] else "<table>\n<thead>\n") + TableRowHtml(cfg, refs, line, true) + "</thead>\n<tbody>\n"
      else if st.inTable then TableRowHtml(cfg, refs, line, false) else ParagraphHtml(cfg, refs, line);
    if separator {
      HeaderRow(cfg, refs, line, st2.inTable, out);
    } else {
      BodyRow(cfg, refs, line, st2.inTable, out);
    }
    SeqAssoc(old(out.Contents()), lead, row);
  }

  /**
   * The table branch: an open list is closed; when the next line is a
   * separator row this line is the header row and the separator is skipped,
   * otherwise it is a data row of an open table or else a paragraph.
   */
  method TableLine(cfg: Config, refs: seq<RefLink>, md: seq<char>, line: seq<char>, next: nat, st: BlockState, out: Buffer)
    returns (st2: BlockState, next2: nat)
    requires next <= |md| && out.Valid()
    modifies out.Repr
    ensures out.Valid() && fresh(out.Repr - old(out.Repr))
    ensures out.Contents() == old(out.Contents())
      + ((if st.inList then ListClose(st.ordered) else [])
         + (if IsTableSeparator(LineAt(md, next))
            then (if st.inTable then [] else "<table>\n<thead>\n") + TableRowHtml(cfg, refs, line, true) + "</thead>\n<tbody>\n"
            else if st.inTable then TableRowHtml(cfg, refs, line, false) else ParagraphHtml(cfg, refs, line)))
    ensures st2 == st.(inList := false, inTable := st.inTable || IsTableSeparator(LineAt(md, next)))
    ensures next2 == if IsTableSeparator(LineAt(md, next)) then After(md, next) else next
  {
    var nextLine, after := PeekLine(md, next);
    var separator := CheckTableSeparator(nextLine);
    TableRow(cfg, refs, line, separator, st, out);
    st2 := st.(inList := false, inTable := st.inTable || separator);
    next2 := if separator then after else next;
  }

  /**
   * The branches for a blank line, a heading, a rule, a blockquote and a
   * paragraph: the open list and table are closed, then the line's own output.
   */
  method ClosingLine(cfg: Config, refs: seq<RefLink>, st: BlockState, last: Piece, out: Buffer) returns (st2: BlockState)
    requires out.Valid() && (last.Markup? || last.Heading? || last.Quote? || last.Para?)
    requires last.Heading? ==> IsHeaderLine(last.line)
    requires last.Quote? ==> IsBlockquote(last.line)
    modifies out.Repr
    ensures out.Valid() && fresh(out.Repr - old(out.Repr))
    ensures out.Contents() == old(out.Contents()) + PiecesHtml(cfg, refs, Closing(st, last)) && st2 == Closed(st)
  {
    st2 := CloseOpen(st, out);
    match last {
      case Markup(text) =>
        out.Append(text);
      case Heading(line) =>
        var _ := AppendHeader(cfg, refs, line, out);
      case Quote(line) =>
        var _ := AppendBlockquote(cfg, refs, line, out);
      case Para(line) =>
        AppendParagraph(cfg, refs, line, out);
    }
    ClosingHtml(cfg, refs, st, last);
    SeqAssoc(old(out.Contents()), Closers(st), PieceHtml(cfg, refs, last));
  }

  /**
   * A line outside a code block that defines nothing: the chain of tests of
   * the main loop, from the blank line to the paragraph.
   */
  method BlockLine(cfg: Config, refs: seq<RefLink>, md: seq<char>, line: seq<char>, next: nat, st: BlockState, out: Buffer)
    returns (st2: BlockState, next2: nat)
    requires next <= |md| && RefDefinition(line).None? && out.Valid()
    modifies out.Repr
    ensures out.Valid() && fresh(out.Repr - old(out.Repr))
    ensures var s := BlockStep(cfg, md, line, next, st);
      out.Contents() == old(out.Contents()) + PiecesHtml(cfg, refs, s.pieces) && st2 == s.state && next2 == s.next
  {
    next2 := next;
    if line == [] {
      st2 := ClosingLine(cfg, refs, st, Markup("\n"), out);
    } else if IsHeaderLine(line) {
      st2 := ClosingLine(cfg, refs, st, Heading(line), out);
    } else {
      var rule := CheckHorizontalRule(line);
      if rule {
        st2 := ClosingLine(cfg, refs, st, Markup("<hr>\n"), out);
      } else if IsBlockquote(line) {
        st2 := ClosingLine(cfg, refs, st, Quote(line), out);
      } else {
        st2, next2 := ListTableOrParagraph(cfg, refs, md, line, next, st, out);
      }
    }
  }

  /** The end of the chain: a list item, a table row when tables are enabled and the line holds a pipe, else a paragraph. */
  method ListTableOrParagraph(cfg: Config, refs: seq<RefLink>, md: seq<char>, line: seq<char>, next: nat, st: BlockState, out: Buffer)
    returns (st2: BlockState, next2: nat)
    requires next <= |md| && RefDefinition(line).None? && out.Valid()
    requires line != [] && !IsHeaderLine(line) && !IsHorizontalRule(line) && !IsBlockquote(line)
    modifies out.Repr
    ensures out.Valid() && fresh(out.Repr - old(out.Repr))
    ensures var s := BlockStep(cfg, md, line, next, st);
      out.Contents() == old(out.Contents()) + PiecesHtml(cfg, refs, s.pieces) && st2 == s.state && next2 == s.next
  {
    next2 := next;
    var item := CheckListItem(line);
    if item {
      st2 := ListLine(cfg, refs, line, st, out);
      ItemStepHtml(cfg, refs, st, st2.ordered, line);
    } else if cfg.enableTables && HasChar(line, '|') {
      st2, next2 := TableLine(cfg, refs, md, line, next, st, out);
      if IsTableSeparator(LineAt(md, next)) {
        TableHeaderHtml(cfg, refs, md, line, next, st);
      } else {
        TableBodyHtml(cfg, refs, md, line, next, st);
      }
    } else {
      st2 := ClosingLine(cfg, refs, st, Para(line), out);
    }
  }

  /** A fence line or a line inside a code block: the fence toggles the block, a code line is copied escaped. */
  method CodeLine(cfg: Config, refs: seq<RefLink>, line: seq<char>, st: BlockState, out: Buffer) returns (st2: BlockState)
    requires (IsCodeFence(line) || st.inCode) && out.Valid()
    modifies out.Repr
    ensures out.Valid() && fresh(out.Repr - old(out.Repr))
    ensures IsCodeFence(line) ==>
      out.Contents() == old(out.Contents()) + (if st.inCode then "</code></pre>\n" else "<pre><code>")
      && st2 == st.(inCode := !st.inCode)
    ensures !IsCodeFence(line) ==> out.Contents() == old(out.Contents()) + (Escape(line) + "\n") && st2 == st
  {
    st2 := st;
    if IsCodeFence(line) {
      if !st2.inCode {
        out.Append("<pre><code>");
        st2 := st2.(inCode := true);
      } else {
        out.Append("</code></pre>\n");
        st2 := st2.(inCode := false);
      }
    } else {
      AppendEscaped(out, line);
      out.Append("\n");
    }
  }

  /**
   * The handling of a trimmed line, the next one starting at `next`: a fence
   * or a code line, a reference definition (added to the parser's table), or
   * a block.
   */
  method HandleLine(p: Parser, md: seq<char>, line: seq<char>, next: nat, st: BlockState, out: Buffer)
    returns (st2: BlockState, next2: nat)
    requires next <= |md| && out.Valid() && p !in out.Repr
    modifies p, out.Repr
    ensures out.Valid() && fresh(out.Repr - old(out.Repr)) && p.lineBuffer == old(p.lineBuffer)
    ensures var s := LineStepOf(p.config, md, line, next, st);
      && out.Contents() == old(out.Contents()) + PiecesHtml(p.config, old(p.refs), s.pieces)
      && p.refs == Define(old(p.refs), s) && next2 == s.next && st2 == s.state
  {
    next2 := next;
    if IsCodeFence(line) || st.inCode {
      st2 := CodeLine(p.config, p.refs, line, st, out);
      PiecesHtmlSingle(p.config, p.refs, Markup(if IsCodeFence(line) then (if st.inCode then "</code></pre>\n" else "<pre><code>") else Escape(line) + "\n"));
    } else {
      var def := ParseDefinition(line);
      if def.Some? {
        var _ := AddReferenceLink(p, Some(def.value.name), Some(def.value.url), def.value.title);
        st2 := st;
        assert PiecesHtml(p.config, old(p.refs), []) == [];
      } else {
        st2, next2 := BlockLine(p.config, p.refs, md, line, next, st, out);
      }
    }
  }

  /**
   * One iteration of the main loop of `marker_parse` on the line starting at
   * `pos`: the line is read into the parser's line buffer and trimmed, then
   * handled.
   */
  method ProcessLine(p: Parser, md: seq<char>, pos: nat, st: BlockState, out: Buffer) returns (next: nat, st2: BlockState)
    requires pos < |md| && md[pos] != NUL
    requires out.Valid() && p !in out.Repr && p.lineBuffer !in out.Repr
    modifies p, p.lineBuffer, out.Repr
    ensures out.Valid() && fresh(out.Repr - old(out.Repr)) && p.lineBuffer !in out.Repr
    ensures p.lineBuffer == old(p.lineBuffer) || fresh(p.lineBuffer)
    ensures var s := LineStep(p.config, md, pos, st);
      && out.Contents() == old(out.Contents()) + PiecesHtml(p.config, old(p.refs), s.pieces)
      && p.refs == Define(old(p.refs), s) && next == s.next && st2 == s.state
  {
    var line, after := ReadLine(p, md, pos);
    st2, next := HandleLine(p, md, line, after, st, out);
  }

  /** The end of `marker_parse`: an open code block, then list, then table are closed. */
  method EndBlocks(st: BlockState, out: Buffer)
    requires out.Valid()
    modifies out.Repr
    ensures out.Valid() && fresh(out.Repr - old(out.Repr))
    ensures out.Contents() == old(out.Contents())
      + ((if st.inCode then "</code></pre>\n" else []) + (if st.inList then ListClose(st.ordered) else [])
         + (if st.inTable then TableClose else []))
  {
    ghost var code: seq<char> := if st.inCode then "</code></pre>\n" else [];
    ghost var list := if st.inList then ListClose(st.ordered) else [];
    ghost var table := if st.inTable then TableClose else [];
    if st.inCode {
      out.Append("</code></pre>\n");
    }
    assert out.Contents() == old(out.Contents()) + code;
    if st.inList {
      out.Append(ListClose(st.ordered));
    }
    assert out.Contents() == old(out.Contents()) + code + list;
    if st.inTable {
      out.Append(TableClose);
    }
    assert out.Contents() == old(out.Contents()) + code + list + table;
    SeqAssoc(old(out.Contents()) + code, list, table);
    SeqAssoc(old(out.Contents()), code, list + table);
    SeqAssoc(code, list, table);
  }

  /**
   * `marker_parse`: NULL_POINTER when the parser, the Markdown text or the
   * output buffer is missing, with nothing changed; otherwise the document is
   * rendered line by line onto the end of the buffer and its reference
   * definitions are added to the parser's table.
   */
  method MarkerParse(p: Parser?, md: Option<seq<char>>, out: Buffer?) returns (r: ResultCode)
    requires out != null ==> out.Valid()
    requires p != null && out != null ==> p !in out.Repr && p.lineBuffer !in out.Repr
    modifies p, if p != null then {p.lineBuffer} else {}, if out != null then out.Repr else {}
    ensures r == (if p == null || md.None? || out == null then NullPointer else Ok)
    ensures out != null ==> out.Valid() && fresh(out.Repr - old(out.Repr))
    ensures r == NullPointer ==> (out != null ==> out.Contents() == old(out.Contents())) && (p != null ==> p.refs == old(p.refs))
    ensures r == Ok ==> out.Contents() == old(out.Contents()) + Document(p.config, old(p.refs), md.value).0
    ensures r == Ok ==> p.refs == Document(p.config, old(p.refs), md.value).1
  {
    if p == null || md.None? || out == null {
      return NullPointer;
    }
    var text := md.value;
    ghost var cfg := p.config;
    ghost var out0 := out.Contents();
    ghost var whole := (out0 + Document(cfg, p.refs, text).0, Document(cfg, p.refs, text).1);
    var pos := 0;
    var st := Start;
    while At(text, pos) != NUL
      invariant pos <= |text|
      invariant out.Valid() && fresh(out.Repr - old(out.Repr)) && p !in out.Repr && p.lineBuffer !in out.Repr
      invariant p.lineBuffer == old(p.lineBuffer) || fresh(p.lineBuffer)
      invariant whole == (out.Contents() + Emit(cfg, p.refs, Steps(cfg, text, pos, st)).0, Emit(cfg, p.refs, Steps(cfg, text, pos, st)).1)
      decreases |text| - pos
    {
      ghost var refs := p.refs;
      ghost var before := out.Contents();
      ghost var pos0, st0 := pos, st;
      pos, st := ProcessLine(p, text, pos, st, out);
      WalkAdvance(cfg, refs, text, pos0, st0, whole, before, out.Contents());
    }
    WalkEnd(cfg, p.refs, text, pos, st);
    EndClosesInOrder(cfg, p.refs, st);
    EndBlocks(st, out);
    return Ok;
  }
}
