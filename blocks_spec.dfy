/**
 * The block pass of `marker_parse` (marker.c:1134-1783) as functions: how one
 * trimmed line is classified, what each block construct renders, and how the
 * pass walks the document line by line carrying the open code block, list and
 * table.
 *
 * A line's step is described by a list of `Piece`s rather than by finished
 * HTML: literal markup, or a block construct still to be rendered with the
 * reference table in force at that line. `PieceHtml` turns a piece into HTML.
 */
module BlockSyntax {
  import opened Options
  import opened Chars
  import opened Configuration
  import opened ReferenceLinks
  import opened Escaping
  import opened InlineSyntax

  // ---------------------------------------------------------------------------
  // Line classifiers (marker.c:1134-1189)
  // ---------------------------------------------------------------------------

  /** `is_header_line`. */
  predicate IsHeaderLine(line: seq<char>)
  {
    At(line, 0) == '#'
  }

  /** `is_code_fence`: the line starts with three backticks or three tildes. */
  predicate IsCodeFence(line: seq<char>)
  {
    StartsWith(line, "```") || StartsWith(line, "~~~")
  }

  /** `is_blockquote`. */
  predicate IsBlockquote(line: seq<char>)
  {
    At(line, 0) == '>'
  }

  /** The end of the run of decimal digits starting at `i`. */
  function DigitRun(line: seq<char>, i: nat): (j: nat)
    ensures i <= j && !IsDigit(At(line, j))
    ensures forall k :: i <= k < j ==> IsDigit(At(line, k))
    decreases |line| - i
  {
    if IsDigit(At(line, i)) then DigitRun(line, i + 1) else i
  }

  /** `is_list_item`: a bullet `-`, `*` or `+` followed by a space, or digits followed by ". ". */
  predicate IsListItem(line: seq<char>)
  {
    || ((At(line, 0) == '-' || At(line, 0) == '*' || At(line, 0) == '+') && At(line, 1) == ' ')
    || (var d := DigitRun(line, 0); d > 0 && At(line, d) == '.' && At(line, d + 1) == ' ')
  }

  predicate IsRuleMarker(c: char)
  {
    c == '-' || c == '*' || c == '_'
  }

  /**
   * The loop of `is_horizontal_rule` from position `i`, having met `count`
   * markers so far, all equal to `marker` (NUL while none was met).
   */
  function RuleScan(line: seq<char>, i: nat, marker: char, count: nat): bool
    decreases |line| - i
  {
    if At(line, i) == NUL then count >= 3
    else if IsRuleMarker(line[i]) then
      if marker == NUL then RuleScan(line, i + 1, line[i], count + 1)
      else if marker != line[i] then false
      else RuleScan(line, i + 1, marker, count + 1)
    else if !IsWhitespace(line[i]) then false
    else RuleScan(line, i + 1, marker, count)
  }

  /** `is_horizontal_rule`. */
  predicate IsHorizontalRule(line: seq<char>)
  {
    RuleScan(line, 0, NUL, 0)
  }

  /** How many times `c` occurs in `s` from position `i` on. */
  function CountFrom(s: seq<char>, i: nat, c: char): nat
    decreases |s| - i
  {
    if i >= |s| then 0 else (if s[i] == c then 1 else 0) + CountFrom(s, i + 1, c)
  }

  /** From `i` on, `s` holds only the marker `m` and whitespace. */
  predicate OnlyMarkerFrom(s: seq<char>, i: nat, m: char)
  {
    forall k :: i <= k < |s| ==> s[k] == m || IsWhitespace(s[k])
  }

  /** A thematic break drawn with marker `m`: only `m` and whitespace, and `m` at least three times. */
  predicate RuleOf(s: seq<char>, m: char)
  {
    IsRuleMarker(m) && OnlyMarkerFrom(s, 0, m) && CountFrom(s, 0, m) >= 3
  }

  /** Once a marker is fixed, the scan accepts exactly the rest made of that marker and whitespace, enough of them. */
  lemma {:induction false} RuleScanMarked(line: seq<char>, i: nat, m: char, count: nat)
    requires NoNul(line) && i <= |line| && IsRuleMarker(m)
    ensures RuleScan(line, i, m, count) <==> OnlyMarkerFrom(line, i, m) && count + CountFrom(line, i, m) >= 3
    decreases |line| - i
  {
    if i < |line| {
      assert At(line, i) == line[i];
      RuleScanMarked(line, i + 1, m, if line[i] == m then count + 1 else count);
    }
  }

  /** Before any marker, the scan accepts exactly a rest that is a rule drawn with one of the three markers. */
  lemma {:induction false} RuleScanFresh(line: seq<char>, i: nat)
    requires NoNul(line) && i <= |line|
    ensures RuleScan(line, i, NUL, 0)
      <==> (exists m :: IsRuleMarker(m) && OnlyMarkerFrom(line, i, m) && CountFrom(line, i, m) >= 3)
    decreases |line| - i
  {
    if i < |line| {
      var c := line[i];
      assert At(line, i) == c;
      if IsRuleMarker(c) {
        RuleScanMarked(line, i + 1, c, 1);
        if RuleScan(line, i, NUL, 0) {
          assert OnlyMarkerFrom(line, i, c) && CountFrom(line, i, c) >= 3;
        }
      } else if IsWhitespace(c) {
        RuleScanFresh(line, i + 1);
        if exists m :: IsRuleMarker(m) && OnlyMarkerFrom(line, i, m) && CountFrom(line, i, m) >= 3 {
          var m :| IsRuleMarker(m) && OnlyMarkerFrom(line, i, m) && CountFrom(line, i, m) >= 3;
          assert OnlyMarkerFrom(line, i + 1, m) && CountFrom(line, i + 1, m) >= 3;
        }
      }
    }
  }

  /**
   * What `is_horizontal_rule` accepts: a line of one marker among `-`, `*` and
   * `_`, at least three times, with only whitespace between; mixing markers or
   * any other character rejects it.
   */
  lemma HorizontalRuleIff(line: seq<char>)
    requires NoNul(line)
    ensures IsHorizontalRule(line) <==> RuleOf(line, '-') || RuleOf(line, '*') || RuleOf(line, '_')
  {
    RuleScanFresh(line, 0);
  }

  predicate IsSeparatorChar(c: char)
  {
    c == '|' || c == '-' || c == ' ' || c == ':'
  }

  /** The loop of `is_table_separator` from position `i`, having seen a pipe or a dash already. */
  function SeparatorScan(line: seq<char>, i: nat, pipe: bool, dash: bool): bool
    decreases |line| - i
  {
    if At(line, i) == NUL then pipe && dash
    else if line[i] == '|' then SeparatorScan(line, i + 1, true, dash)
    else if line[i] == '-' then SeparatorScan(line, i + 1, pipe, true)
    else if line[i] != ' ' && line[i] != ':' then false
    else SeparatorScan(line, i + 1, pipe, dash)
  }

  /** `is_table_separator`. */
  predicate IsTableSeparator(line: seq<char>)
  {
    SeparatorScan(line, 0, false, false)
  }

  lemma {:induction false} SeparatorScanIff(line: seq<char>, i: nat, pipe: bool, dash: bool)
    requires NoNul(line) && i <= |line|
    ensures SeparatorScan(line, i, pipe, dash)
      <==> ((forall k :: i <= k < |line| ==> IsSeparatorChar(line[k]))
        && (pipe || exists k :: i <= k < |line| && line[k] == '|')
        && (dash || exists k :: i <= k < |line| && line[k] == '-'))
    decreases |line| - i
  {
    if i < |line| {
      assert At(line, i) == line[i];
      SeparatorScanIff(line, i + 1, pipe || line[i] == '|', dash || line[i] == '-');
    }
  }

  /**
   * What `is_table_separator` accepts: only pipes, dashes, spaces and colons,
   * with at least one pipe and at least one dash.
   */
  lemma TableSeparatorIff(line: seq<char>)
    requires NoNul(line)
    ensures IsTableSeparator(line)
      <==> (forall k :: 0 <= k < |line| ==> IsSeparatorChar(line[k])) && '|' in line && '-' in line
  {
    SeparatorScanIff(line, 0, false, false);
  }

  // ---------------------------------------------------------------------------
  // Block renderers (marker.c:1191-1444)
  // ---------------------------------------------------------------------------

  /** The loop of `parse_header` from `i`: how many `#` begin the line, at most six. */
  function HashRun(line: seq<char>, i: nat): (n: nat)
    requires i <= 6
    ensures i <= n <= 6 && (i <= |line| ==> n <= |line|)
    ensures forall k :: i <= k < n ==> At(line, k) == '#'
    ensures n == 6 || At(line, n) != '#'
    decreases 6 - i
  {
    if i < 6 && At(line, i) == '#' then HashRun(line, i + 1) else i
  }

  /** The heading level: the number of leading `#`, capped at six. */
  function HeadingLevel(line: seq<char>): (n: nat)
    ensures n <= 6 && n <= |line| && (IsHeaderLine(line) ==> 1 <= n)
    ensures forall k :: 0 <= k < n ==> line[k] == '#'
    ensures n < 6 ==> At(line, n) != '#'
  {
    HashRun(line, 0)
  }

  /** A line opening with `k` marks has level `k`, or six when `k` exceeds six. */
  lemma HeadingLevelCount(line: seq<char>, k: nat)
    requires 1 <= k <= |line| && forall j :: 0 <= j < k ==> line[j] == '#'
    requires k < |line| ==> line[k] != '#'
    ensures HeadingLevel(line) == if k < 6 then k else 6
  {
  }

  /** The first position at or after `i` not holding a space (tabs are not skipped). */
  function SkipSpaces(line: seq<char>, i: nat): (j: nat)
    ensures i <= j && At(line, j) != ' '
    ensures forall k :: i <= k < j ==> At(line, k) == ' '
    decreases |line| - i
  {
    if At(line, i) == ' ' then SkipSpaces(line, i + 1) else i
  }

  /** `h1` to `h6`. */
  function HeadingTag(level: nat): seq<char>
  {
    "h" + [('0' as int + level % 10) as char]
  }

  /** `parse_header`: the heading tag around the rendering of the text after the marks and spaces. */
  function HeaderHtml(cfg: Config, refs: seq<RefLink>, line: seq<char>): seq<char>
  {
    var level := HeadingLevel(line);
    var tag := HeadingTag(level);
    "<" + tag + ">" + Render(cfg, refs, line, SkipSpaces(line, level), |line|) + "</" + tag + ">\n"
  }

  /** Where a quotation's text starts: after the `>` and one optional space. */
  function QuoteStart(line: seq<char>): nat
  {
    if At(line, 1) == ' ' then 2 else 1
  }

  /** `parse_blockquote`. */
  function BlockquoteHtml(cfg: Config, refs: seq<RefLink>, line: seq<char>): seq<char>
  {
    "<blockquote>" + Render(cfg, refs, line, QuoteStart(line), |line|) + "</blockquote>\n"
  }

  /** Where a list item's text starts: after the digits and ". ", or after the bullet and its space. */
  function ItemStart(line: seq<char>): nat
  {
    if IsDigit(At(line, 0)) then DigitRun(line, 0) + 2 else 2
  }

  /** A task-list checkbox, when the item text opens with `[ ] `, `[x] ` or `[X] `. */
  datatype TaskBox = NoBox | Box(checked: bool)

  function TaskOf(cfg: Config, line: seq<char>): TaskBox
  {
    var c := ItemStart(line);
    if cfg.enableTaskLists && At(line, c) == '['
      && (At(line, c + 1) == ' ' || At(line, c + 1) == 'x' || At(line, c + 1) == 'X')
      && At(line, c + 2) == ']' && At(line, c + 3) == ' '
    then Box(At(line, c + 1) != ' ')
    else NoBox
  }

  /** The opening of a list item: a task item is marked with a class and gets a disabled checkbox. */
  function ItemOpen(task: TaskBox): seq<char>
  {
    "<li" + (if task.Box? then " class=\"task-list-item\"" else "") + ">"
    + (if task.Box? then "<input type=\"checkbox\"" + (if task.checked then " checked" else "") + " disabled> " else "")
  }

  /** `parse_list_item`: the text after the marker, and after the checkbox of a task item. */
  function ListItemHtml(cfg: Config, refs: seq<RefLink>, line: seq<char>): seq<char>
  {
    var task := TaskOf(cfg, line);
    var start := if task.Box? then ItemStart(line) + 4 else ItemStart(line);
    ItemOpen(task) + Render(cfg, refs, line, start, |line|) + "</li>\n"
  }

  /** The first position at or after `i` that is neither whitespace nor a pipe. */
  function RowStart(line: seq<char>, i: nat): (j: nat)
    requires i <= |line|
    ensures i <= j <= |line| && (j == |line| || (!IsWhitespace(line[j]) && line[j] != '|'))
    decreases |line| - i
  {
    if i < |line| && (IsWhitespace(line[i]) || line[i] == '|') then RowStart(line, i + 1) else i
  }

  /** The end of the cell starting at `i`: the next pipe, or the end of the line. */
  function CellEnd(line: seq<char>, i: nat): (j: nat)
    requires i <= |line|
    ensures i <= j <= |line| && (j == |line| || line[j] == '|')
    ensures forall k :: i <= k < j ==> line[k] != '|'
    decreases |line| - i
  {
    if i < |line| && line[i] != '|' then CellEnd(line, i + 1) else i
  }

  /** Where the next cell starts: past the pipe that ended this one, if any, and past whitespace. */
  function NextCell(line: seq<char>, e: nat): (j: nat)
    requires e <= |line|
    ensures e <= j <= |line| && (e < |line| ==> e < j)
  {
    SkipSpace(line, if e < |line| then e + 1 else e)
  }

  /** The trimmed texts of the cells of a table row, from position `pos` on. */
  function Cells(line: seq<char>, pos: nat): (cells: seq<seq<char>>)
    requires pos <= |line|
    ensures pos < |line| <==> cells != []
    decreases |line| - pos
  {
    if pos == |line| then []
    else
      var e := CellEnd(line, pos);
      [Trim(line[pos..e])] + Cells(line, NextCell(line, e))
  }

  /** One cell's text rendered inside `<tag>` and `</tag>`. */
  function CellHtml(cfg: Config, refs: seq<RefLink>, tag: seq<char>, cell: seq<char>): seq<char>
  {
    "<" + tag + ">" + Render(cfg, refs, cell, 0, |cell|) + "</" + tag + ">"
  }

  /** Each cell's text rendered inside `<tag>` and `</tag>`. */
  function CellsHtml(cfg: Config, refs: seq<RefLink>, tag: seq<char>, cells: seq<seq<char>>): seq<char>
  {
    if cells == [] then [] else CellHtml(cfg, refs, tag, cells[0]) + CellsHtml(cfg, refs, tag, cells[1..])
  }

  lemma {:induction false} CellsHtmlSnoc(cfg: Config, refs: seq<RefLink>, tag: seq<char>, cells: seq<seq<char>>, c: seq<char>)
    ensures CellsHtml(cfg, refs, tag, cells + [c]) == CellsHtml(cfg, refs, tag, cells) + CellHtml(cfg, refs, tag, c)
  {
    if cells != [] {
      var head, rest := CellHtml(cfg, refs, tag, cells[0]), cells[1..];
      assert (cells + [c])[0] == cells[0] && (cells + [c])[1..] == rest + [c];
      assert CellsHtml(cfg, refs, tag, cells + [c]) == head + CellsHtml(cfg, refs, tag, rest + [c]);
      CellsHtmlSnoc(cfg, refs, tag, rest, c);
      SeqAssoc(head, CellsHtml(cfg, refs, tag, rest), CellHtml(cfg, refs, tag, c));
    } else {
      assert [] + [c] == [c];
    }
  }

  /** `parse_table_row`: a `th` cell per column in the header row, a `td` cell in the others. */
  function TableRowHtml(cfg: Config, refs: seq<RefLink>, line: seq<char>, header: bool): seq<char>
  {
    "<tr>" + CellsHtml(cfg, refs, if header then "th" else "td", Cells(line, RowStart(line, 0))) + "</tr>\n"
  }

  /** A row with no pipe inside its text has a single cell: the trimmed text. */
  lemma SingleCell(line: seq<char>, pos: nat)
    requires pos < |line| && forall k :: pos <= k < |line| ==> line[k] != '|'
    ensures Cells(line, pos) == [Trim(line[pos..])]
  {
    var e := CellEnd(line, pos);
    if e < |line| {
      assert false;
    }
    LastCell(line, pos);
  }

  /** A cell that runs to the end of the row is the last one. */
  lemma LastCell(line: seq<char>, pos: nat)
    requires pos < |line| && CellEnd(line, pos) == |line|
    ensures Cells(line, pos) == [Trim(line[pos..])]
  {
    assert NextCell(line, |line|) == |line|;
    assert line[pos..|line|] == line[pos..];
  }

  /** Outer pipes and the spaces around cell texts are dropped. */
  lemma CellsExample()
    ensures Cells("| a | b |", 2) == ["a", "b"]
  {
    var r := "| a | b |";
    assert CellEnd(r, 2) == 4;
    assert Trim(r[2..4]) == "a" by { assert r[2..4] == "a "; }
    assert CellEnd(r, 6) == 8;
    assert Trim(r[6..8]) == "b" by { assert r[6..8] == "b "; }
    assert Cells(r, 9) == [];
  }

  /** Two pipes in a row make an empty cell. */
  lemma EmptyCellExample()
    ensures Cells("a||b", 0) == ["a", "", "b"]
  {
    var s := "a||b";
    assert Cells(s, 3) == ["b"] by {
      assert CellEnd(s, 3) == 4 && s[3..4] == "b" && Trim("b") == "b";
    }
    assert Cells(s, 2) == ["", "b"] by {
      assert CellEnd(s, 2) == 2 && s[2..2] == "" && Trim("") == "";
      assert NextCell(s, 2) == 3;
    }
    assert CellEnd(s, 0) == 1 && s[0..1] == "a" && Trim("a") == "a";
    assert NextCell(s, 1) == 2;
  }

  /** `parse_paragraph`. */
  function ParagraphHtml(cfg: Config, refs: seq<RefLink>, line: seq<char>): seq<char>
  {
    "<p>" + Render(cfg, refs, line, 0, |line|) + "</p>\n"
  }

  // ---------------------------------------------------------------------------
  // Reference definitions (marker.c:1500-1558)
  // ---------------------------------------------------------------------------

  /** The first position at or after `i` holding neither a space nor a tab. */
  function SkipBlanks(line: seq<char>, i: nat): (j: nat)
    requires i <= |line|
    ensures i <= j <= |line| && At(line, j) != ' ' && At(line, j) != '\t'
    ensures forall k :: i <= k < j ==> line[k] == ' ' || line[k] == '\t'
    decreases |line| - i
  {
    if At(line, i) == ' ' || At(line, i) == '\t' then SkipBlanks(line, i + 1) else i
  }

  /** The end of the run of non-whitespace characters starting at `i`. */
  function WordEnd(line: seq<char>, i: nat): (j: nat)
    requires i <= |line|
    ensures i <= j <= |line| && (At(line, j) == NUL || IsWhitespace(At(line, j)))
    ensures forall k :: i <= k < j ==> !IsWhitespace(line[k]) && line[k] != NUL
    decreases |line| - i
  {
    if At(line, i) != NUL && !IsWhitespace(At(line, i)) then WordEnd(line, i + 1) else i
  }

  /** The title of a definition: after an opening quote, the text up to the last quote, if there is one. */
  function TitleAt(line: seq<char>, i: nat): Option<seq<char>>
    requires i <= |line|
  {
    if At(line, i) != '"' then None
    else
      match LastIndexOf(line[i + 1..], '"')
      case Some(j) => Some(line[i + 1..][..j])
      case None => None
  }

  /**
   * A line `[name]: url "title"`: the name is everything between the `[`
   * and the first `]`, which a `:` must follow; the url is the next word after
   * spaces and tabs; the title is optional.
   */
  function RefDefinition(line: seq<char>): (r: Option<RefLink>)
    ensures r.Some? ==> At(line, 0) == '[' && ']' !in r.value.name
  {
    if At(line, 0) != '[' then None
    else
      var c := ScanTo(line, 0, ']');
      if At(line, c) != ']' || At(line, c + 1) != ':' then None
      else
        var us := SkipBlanks(line, c + 2);
        var ue := WordEnd(line, us);
        var ts := SkipBlanks(line, ue);
        assert forall k :: 0 <= k < c - 1 ==> line[1..c][k] == At(line, k + 1);
        Some(RefLink(line[1..c], line[us..ue], TitleAt(line, ts)))
  }

  /** `RefDefinition` once the positions of its scans are known. */
  lemma RefDefinitionAt(line: seq<char>, c: nat, us: nat, ue: nat, ts: nat)
    requires At(line, 0) == '[' && ScanTo(line, 0, ']') == c && At(line, c) == ']' && At(line, c + 1) == ':'
    requires c + 2 <= |line| && SkipBlanks(line, c + 2) == us && WordEnd(line, us) == ue && SkipBlanks(line, ue) == ts
    ensures 1 <= c <= us <= ue <= ts <= |line|
    ensures RefDefinition(line) == Some(RefLink(line[1..c], line[us..ue], TitleAt(line, ts)))
  {
  }

  /** The first `]` of a line `[name]...` is the one after the name. */
  lemma NameScan(line: seq<char>, name: seq<char>)
    requires NoNul(name) && ']' !in name
    requires |name| + 1 < |line| && line[0] == '[' && line[1..|name| + 1] == name && line[|name| + 1] == ']'
    ensures ScanTo(line, 0, ']') == |name| + 1
  {
    var c := |name| + 1;
    forall k | 0 <= k < c
      ensures At(line, k) != ']' && At(line, k) != NUL
    {
      if k > 0 {
        assert line[k] == line[1..c][k - 1] == name[k - 1];
        assert name[k - 1] in name;
      }
    }
    ScanToFirst(line, 0, ']', c);
  }

  /** A url word ends where the url ends, before a space or the end of the line. */
  lemma UrlScan(line: seq<char>, us: nat, url: seq<char>)
    requires forall k :: 0 <= k < |url| ==> !IsWhitespace(url[k]) && url[k] != NUL
    requires us + |url| <= |line| && line[us..us + |url|] == url
    requires us + |url| == |line| || line[us + |url|] == ' '
    ensures WordEnd(line, us) == us + |url|
  {
  }

  /** Where the parts of `[name]: url` followed by `tail` sit. */
  lemma DefinitionLayout(name: seq<char>, url: seq<char>, tail: seq<char>)
    ensures var line := "[" + name + "]: " + url + tail;
      && |line| == |name| + 4 + |url| + |tail|
      && line[0] == '[' && line[|name| + 1] == ']' && line[|name| + 2] == ':' && line[|name| + 3] == ' '
      && line[1..|name| + 1] == name && line[|name| + 4..|name| + 4 + |url|] == url
      && line[|name| + 4 + |url|..] == tail
  {
  }

  /** The positions of the scans over `[name]: url`, followed by `tail`. */
  lemma DefinitionScans(name: seq<char>, url: seq<char>, tail: seq<char>)
    requires NoNul(name) && ']' !in name
    requires url != [] && forall k :: 0 <= k < |url| ==> !IsWhitespace(url[k]) && url[k] != NUL
    requires tail == [] || tail[0] == ' '
    ensures var line := "[" + name + "]: " + url + tail;
      && ScanTo(line, 0, ']') == |name| + 1 && At(line, |name| + 1) == ']' && At(line, |name| + 2) == ':'
      && SkipBlanks(line, |name| + 3) == |name| + 4
      && WordEnd(line, |name| + 4) == |name| + 4 + |url|
      && line[1..|name| + 1] == name && line[|name| + 4..|name| + 4 + |url|] == url
      && line[|name| + 4 + |url|..] == tail
  {
    var line := "[" + name + "]: " + url + tail;
    var us := |name| + 4;
    DefinitionLayout(name, url, tail);
    NameScan(line, name);
    assert SkipBlanks(line, us - 1) == us;
    assert us + |url| == |line| || line[us + |url|] == tail[0];
    UrlScan(line, us, url);
  }

  /** A definition with a quoted title parses back to its three parts. */
  lemma RefDefinitionTitled(name: seq<char>, url: seq<char>, title: seq<char>)
    requires NoNul(name) && ']' !in name
    requires url != [] && forall k :: 0 <= k < |url| ==> !IsWhitespace(url[k]) && url[k] != NUL
    ensures RefDefinition("[" + name + "]: " + url + " \"" + title + "\"") == Some(RefLink(name, url, Some(title)))
  {
    var tail := " \"" + title + "\"";
    var line := "[" + name + "]: " + url + tail;
    DefinitionScans(name, url, tail);
    var ue := |name| + 4 + |url|;
    var ts := ue + 1;
    assert line[ts..] == "\"" + title + "\"" by {
      assert line[ts..] == tail[1..];
    }
    assert SkipBlanks(line, ue) == ts by {
      assert line[ue] == ' ' && line[ts] == '"';
    }
    QuotedTitle(line, ts, title);
    RefDefinitionAt(line, |name| + 1, |name| + 4, ue, ts);
    Regroup("[" + name + "]: " + url, " \"", title, "\"");
  }

  /** A title written between double quotes at the end of the line is read back. */
  lemma QuotedTitle(line: seq<char>, ts: nat, title: seq<char>)
    requires ts <= |line| && line[ts..] == "\"" + title + "\""
    ensures TitleAt(line, ts) == Some(title)
  {
    var rest := line[ts + 1..];
    assert rest == title + "\"";
    assert LastIndexOf(rest, '"') == Some(|title|);
    assert rest[..|title|] == title;
  }

  /** A definition without a title parses to its name and url and no title. */
  lemma RefDefinitionUntitled(name: seq<char>, url: seq<char>)
    requires NoNul(name) && ']' !in name
    requires url != [] && forall k :: 0 <= k < |url| ==> !IsWhitespace(url[k]) && url[k] != NUL
    ensures RefDefinition("[" + name + "]: " + url) == Some(RefLink(name, url, None))
  {
    var line := "[" + name + "]: " + url;
    DefinitionScans(name, url, []);
    assert line == "[" + name + "]: " + url + [];
    var ue := |name| + 4 + |url|;
    assert SkipBlanks(line, ue) == ue;
    RefDefinitionAt(line, |name| + 1, |name| + 4, ue, ue);
  }

  /** A bracketed text not followed by a colon, or a line not opening with `[`, defines nothing. */
  lemma RefDefinitionNeedsColon(name: seq<char>, rest: seq<char>)
    requires NoNul(name) && ']' !in name && (rest == [] || rest[0] != ':')
    ensures RefDefinition("[" + name + "]" + rest) == None
  {
    var line := "[" + name + "]" + rest;
    ScanToFirst(line, 0, ']', |name| + 1);
  }

  // ---------------------------------------------------------------------------
  // The line walk (marker.c:1446-1783)
  // ---------------------------------------------------------------------------

  /** What is open between lines: a code block, a list (and its kind), a table. */
  datatype BlockState = BlockState(inCode: bool, inList: bool, ordered: bool, inTable: bool)

  const Start := BlockState(false, false, false, false)

  /** What a line contributes to the output. */
  datatype Piece =
    | Markup(text: seq<char>)
    | Heading(line: seq<char>)
    | Quote(line: seq<char>)
    | Item(line: seq<char>)
    | Row(line: seq<char>, header: bool)
    | Para(line: seq<char>)

  function PieceHtml(cfg: Config, refs: seq<RefLink>, piece: Piece): seq<char>
  {
    match piece
    case Markup(text) => text
    case Heading(line) => HeaderHtml(cfg, refs, line)
    case Quote(line) => BlockquoteHtml(cfg, refs, line)
    case Item(line) => ListItemHtml(cfg, refs, line)
    case Row(line, header) => TableRowHtml(cfg, refs, line, header)
    case Para(line) => ParagraphHtml(cfg, refs, line)
  }

  /** The HTML of each piece. */
  function PieceHtmls(cfg: Config, refs: seq<RefLink>, pieces: seq<Piece>): (r: seq<seq<char>>)
    ensures |r| == |pieces|
  {
    seq(|pieces|, i requires 0 <= i < |pieces| => PieceHtml(cfg, refs, pieces[i]))
  }

  /** The strings of `ss` one after the other. */
  function Concat(ss: seq<seq<char>>): seq<char>
  {
    if ss == [] then [] else ss[0] + Concat(ss[1..])
  }

  lemma {:induction false} ConcatAppend(a: seq<seq<char>>, b: seq<seq<char>>)
    ensures Concat(a + b) == Concat(a) + Concat(b)
  {
    if a != [] {
      assert (a + b)[1..] == a[1..] + b;
      ConcatAppend(a[1..], b);
    } else {
      assert a + b == b;
    }
  }

  /** The HTML of a list of pieces, in order. */
  function PiecesHtml(cfg: Config, refs: seq<RefLink>, pieces: seq<Piece>): seq<char>
  {
    Concat(PieceHtmls(cfg, refs, pieces))
  }

  /** A single piece is emitted as its own HTML. */
  lemma PiecesHtmlSingle(cfg: Config, refs: seq<RefLink>, piece: Piece)
    ensures PiecesHtml(cfg, refs, [piece]) == PieceHtml(cfg, refs, piece)
  {
    assert PieceHtmls(cfg, refs, [piece]) == [PieceHtml(cfg, refs, piece)];
    assert Concat([PieceHtml(cfg, refs, piece)]) == PieceHtml(cfg, refs, piece) + Concat([]);
  }

  lemma PiecesHtmlConcat(cfg: Config, refs: seq<RefLink>, a: seq<Piece>, b: seq<Piece>)
    ensures PiecesHtml(cfg, refs, a + b) == PiecesHtml(cfg, refs, a) + PiecesHtml(cfg, refs, b)
  {
    assert PieceHtmls(cfg, refs, a + b) == PieceHtmls(cfg, refs, a) + PieceHtmls(cfg, refs, b);
    ConcatAppend(PieceHtmls(cfg, refs, a), PieceHtmls(cfg, refs, b));
  }

  function ListClose(ordered: bool): seq<char>
  {
    if ordered then "</ol>\n" else "</ul>\n"
  }

  function ListOpen(ordered: bool): seq<char>
  {
    if ordered then "<ol>\n" else "<ul>\n"
  }

  const TableClose: seq<char> := "</tbody></table>\n"

  /** The closing tags a line writes before its own output: the open list's, then the open table's. */
  function Closers(st: BlockState): seq<char>
  {
    (if st.inList then ListClose(st.ordered) else []) + (if st.inTable then TableClose else [])
  }

  /** The closing tag of an open list. */
  function CloseList(st: BlockState): seq<Piece>
  {
    if st.inList then [Markup(ListClose(st.ordered))] else []
  }

  /** The closing tags of an open table. */
  function CloseTable(st: BlockState): seq<Piece>
  {
    if st.inTable then [Markup(TableClose)] else []
  }

  /** What the end of the document appends: the open code block, list and table closed in that order. */
  function Finish(st: BlockState): seq<Piece>
  {
    (if st.inCode then [Markup("</code></pre>\n")] else []) + CloseList(st) + CloseTable(st)
  }

  /** The result of processing one line: what it emits, what it defines, the state after it and where the next line starts. */
  datatype Step = Step(pieces: seq<Piece>, def: Option<RefLink>, state: BlockState, next: nat)

  /** The end of the line starting at `p`: the next newline or the end of the document. */
  function LineEnd(md: seq<char>, p: nat): nat
  {
    ScanTo(md, p, '\n')
  }

  /** The line starting at `p`, trimmed. */
  function LineAt(md: seq<char>, p: nat): (line: seq<char>)
    requires p <= |md|
    ensures NoNul(line)
  {
    var e := LineEnd(md, p);
    var raw := md[p..e];
    assert NoNul(raw) by {
      assert forall k :: 0 <= k < |raw| ==> raw[k] == At(md, p + k);
    }
    TrimIsInfix(raw);
    Trim(raw)
  }

  /** The start of the line after the one starting at `p`. */
  function After(md: seq<char>, p: nat): (q: nat)
    requires p <= |md|
    ensures p <= q <= |md| && (At(md, p) != NUL ==> p < q)
  {
    var e := LineEnd(md, p);
    if At(md, e) == '\n' then e + 1 else e
  }

  /** A line that ends the list and the table before its own output. */
  function Closing(st: BlockState, last: Piece): seq<Piece>
  {
    CloseList(st) + CloseTable(st) + [last]
  }

  function Closed(st: BlockState): BlockState
  {
    st.(inList := false, inTable := false)
  }

  /**
   * A line holding a pipe, with tables enabled: it closes an open list; if the
   * line after it is a separator row it is a header row (opening a table when
   * none is open) and the separator is consumed; otherwise it is a data row of
   * an open table, or else a paragraph.
   */
  function TableStep(md: seq<char>, line: seq<char>, next: nat, st: BlockState): (s: Step)
    requires next <= |md|
    ensures next <= s.next <= |md| && s.def.None?
  {
    var lead := CloseList(st);
    var st1 := st.(inList := false);
    if IsTableSeparator(LineAt(md, next)) then
      Step(lead + (if st.inTable then [] else [Markup("<table>\n<thead>\n")])
                + [Row(line, true), Markup("</thead>\n<tbody>\n")],
           None, st1.(inTable := true), After(md, next))
    else if st.inTable then Step(lead + [Row(line, false)], None, st1, next)
    else Step(lead + [Para(line)], None, st1, next)
  }

  /**
   * A line outside a code block that is not a fence: a reference definition,
   * a blank line, a heading, a rule, a blockquote, a list item, a table row or
   * a paragraph, tested in that order.
   */
  function BlockStep(cfg: Config, md: seq<char>, line: seq<char>, next: nat, st: BlockState): (s: Step)
    requires next <= |md|
    ensures next <= s.next <= |md|
  {
    if RefDefinition(line).Some? then
      Step([], RefDefinition(line), st, next)
    else if line == [] then
      Step(Closing(st, Markup("\n")), None, Closed(st), next)
    else if IsHeaderLine(line) then
      Step(Closing(st, Heading(line)), None, Closed(st), next)
    else if IsHorizontalRule(line) then
      Step(Closing(st, Markup("<hr>\n")), None, Closed(st), next)
    else if IsBlockquote(line) then
      Step(Closing(st, Quote(line)), None, Closed(st), next)
    else if IsListItem(line) then
      var ordered := if st.inList then st.ordered else IsDigit(line[0]);
      Step(CloseTable(st) + (if st.inList then [] else [Markup(ListOpen(ordered))]) + [Item(line)],
           None, st.(inList := true, ordered := ordered, inTable := false), next)
    else if cfg.enableTables && HasChar(line, '|') then
      TableStep(md, line, next, st)
    else
      Step(Closing(st, Para(line)), None, Closed(st), next)
  }

  /** The step for the trimmed `line`, the next line starting at `next`: a fence, a code line or a block. */
  function LineStepOf(cfg: Config, md: seq<char>, line: seq<char>, next: nat, st: BlockState): (s: Step)
    requires next <= |md|
    ensures next <= s.next <= |md|
  {
    if IsCodeFence(line) then
      Step([Markup(if st.inCode then "</code></pre>\n" else "<pre><code>")], None, st.(inCode := !st.inCode), next)
    else if st.inCode then
      Step([Markup(Escape(line) + "\n")], None, st, next)
    else
      BlockStep(cfg, md, line, next, st)
  }

  /** One iteration of the main loop of `marker_parse`, for the line starting at `p`. */
  function LineStep(cfg: Config, md: seq<char>, p: nat, st: BlockState): (s: Step)
    requires p < |md| && md[p] != NUL
    ensures p < s.next <= |md|
  {
    assert At(md, p) != NUL;
    LineStepOf(cfg, md, LineAt(md, p), After(md, p), st)
  }

  /** The reference table after a step: a definition goes to its head. */
  function Define(refs: seq<RefLink>, s: Step): seq<RefLink>
  {
    if s.def.Some? then [s.def.value] + refs else refs
  }

  /**
   * The steps of the walk over the document from position `p` on, one per
   * line; the last one is the end of the document, which closes what is open.
   */
  function Steps(cfg: Config, md: seq<char>, p: nat, st: BlockState): (steps: seq<Step>)
    requires p <= |md|
    ensures steps != []
    decreases |md| - p
  {
    if At(md, p) == NUL then [Step(Finish(st), None, st, p)]
    else
      var s := LineStep(cfg, md, p, st);
      [s] + Steps(cfg, md, s.next, s.state)
  }

  /**
   * Carrying out a list of steps: the HTML they append, each rendered with the
   * reference table in force at its line, and the table at the end.
   */
  function Emit(cfg: Config, refs: seq<RefLink>, steps: seq<Step>): (seq<char>, seq<RefLink>)
    decreases |steps|
  {
    if steps == [] then ([], refs)
    else
      var rest := Emit(cfg, Define(refs, steps[0]), steps[1..]);
      (PiecesHtml(cfg, refs, steps[0].pieces) + rest.0, rest.1)
  }

  /** `marker_parse` on a whole document, starting with nothing open: the HTML appended and the final table. */
  function Document(cfg: Config, refs: seq<RefLink>, md: seq<char>): (seq<char>, seq<RefLink>)
  {
    Emit(cfg, refs, Steps(cfg, md, 0, Start))
  }

  /** The reference definitions made by a list of steps, the last one first. */
  function Definitions(steps: seq<Step>): seq<RefLink>
  {
    if steps == [] then [] else Definitions(steps[1..]) + (if steps[0].def.Some? then [steps[0].def.value] else [])
  }

  /** Carrying out a first step, then the rest. */
  lemma EmitFirst(cfg: Config, refs: seq<RefLink>, s: Step, rest: seq<Step>)
    ensures Emit(cfg, refs, [s] + rest)
      == (PiecesHtml(cfg, refs, s.pieces) + Emit(cfg, Define(refs, s), rest).0, Emit(cfg, Define(refs, s), rest).1)
  {
    assert ([s] + rest)[0] == s && ([s] + rest)[1..] == rest;
  }

  /** The walk from a line start: that line's step, then the walk from the next line. */
  lemma WalkStep(cfg: Config, refs: seq<RefLink>, md: seq<char>, p: nat, st: BlockState)
    requires p < |md| && md[p] != NUL
    ensures var s := LineStep(cfg, md, p, st);
      var rest := Emit(cfg, Define(refs, s), Steps(cfg, md, s.next, s.state));
      Emit(cfg, refs, Steps(cfg, md, p, st)) == (PiecesHtml(cfg, refs, s.pieces) + rest.0, rest.1)
  {
    var s := LineStep(cfg, md, p, st);
    assert At(md, p) != NUL;
    EmitFirst(cfg, refs, s, Steps(cfg, md, s.next, s.state));
  }

  /**
   * The invariant of the line loop carried over one line: when the output so
   * far plus the walk from `p` make up the document, so do the output after
   * the line's step and the walk from the next line.
   */
  lemma WalkAdvance(cfg: Config, refs: seq<RefLink>, md: seq<char>, p: nat, st: BlockState,
                    whole: (seq<char>, seq<RefLink>), before: seq<char>, after: seq<char>)
    requires p < |md| && md[p] != NUL
    requires whole == (before + Emit(cfg, refs, Steps(cfg, md, p, st)).0, Emit(cfg, refs, Steps(cfg, md, p, st)).1)
    requires after == before + PiecesHtml(cfg, refs, LineStep(cfg, md, p, st).pieces)
    ensures var s := LineStep(cfg, md, p, st);
      var rest := Emit(cfg, Define(refs, s), Steps(cfg, md, s.next, s.state));
      whole == (after + rest.0, rest.1)
  {
    var s := LineStep(cfg, md, p, st);
    var rest := Emit(cfg, Define(refs, s), Steps(cfg, md, s.next, s.state));
    WalkStep(cfg, refs, md, p, st);
    SeqAssoc(before, PiecesHtml(cfg, refs, s.pieces), rest.0);
  }

  /** The walk at the end of the document: only the closing step is left. */
  lemma WalkEnd(cfg: Config, refs: seq<RefLink>, md: seq<char>, p: nat, st: BlockState)
    requires p <= |md| && At(md, p) == NUL
    ensures Emit(cfg, refs, Steps(cfg, md, p, st)) == (PiecesHtml(cfg, refs, Finish(st)), refs)
  {
    var s := Step(Finish(st), None, st, p);
    EmitFirst(cfg, refs, s, []);
    assert PiecesHtml(cfg, refs, Finish(st)) + [] == PiecesHtml(cfg, refs, Finish(st));
  }

  /** The HTML of a closing line: the closers, then its own. */
  lemma ClosingHtml(cfg: Config, refs: seq<RefLink>, st: BlockState, last: Piece)
    ensures PiecesHtml(cfg, refs, Closing(st, last)) == Closers(st) + PieceHtml(cfg, refs, last)
  {
    PiecesHtmlConcat(cfg, refs, CloseList(st) + CloseTable(st), [last]);
    PiecesHtmlConcat(cfg, refs, CloseList(st), CloseTable(st));
    PiecesHtmlSingle(cfg, refs, Markup(ListClose(st.ordered)));
    PiecesHtmlSingle(cfg, refs, Markup(TableClose));
    PiecesHtmlSingle(cfg, refs, last);
    assert PiecesHtml(cfg, refs, []) == [];
  }

  /** The HTML of a list item's step. */
  lemma ItemStepHtml(cfg: Config, refs: seq<RefLink>, st: BlockState, ordered: bool, line: seq<char>)
    ensures PiecesHtml(cfg, refs, CloseTable(st) + (if st.inList then [] else [Markup(ListOpen(ordered))]) + [Item(line)])
      == (if st.inTable then TableClose else []) + (if st.inList then [] else ListOpen(ordered)) + ListItemHtml(cfg, refs, line)
  {
    var open := if st.inList then [] else [Markup(ListOpen(ordered))];
    PiecesHtmlConcat(cfg, refs, CloseTable(st) + open, [Item(line)]);
    PiecesHtmlConcat(cfg, refs, CloseTable(st), open);
    PiecesHtmlSingle(cfg, refs, Markup(TableClose));
    PiecesHtmlSingle(cfg, refs, Markup(ListOpen(ordered)));
    PiecesHtmlSingle(cfg, refs, Item(line));
    assert PiecesHtml(cfg, refs, []) == [];
  }

  /** The HTML of a line that closes the list and is then one piece. */
  lemma ListLeadHtml(cfg: Config, refs: seq<RefLink>, st: BlockState, last: Piece)
    ensures PiecesHtml(cfg, refs, CloseList(st) + [last])
      == (if st.inList then ListClose(st.ordered) else []) + PieceHtml(cfg, refs, last)
  {
    PiecesHtmlConcat(cfg, refs, CloseList(st), [last]);
    PiecesHtmlSingle(cfg, refs, Markup(ListClose(st.ordered)));
    PiecesHtmlSingle(cfg, refs, last);
    assert PiecesHtml(cfg, refs, []) == [];
  }

  /** The HTML of a header row's step. */
  lemma HeaderRowHtml(cfg: Config, refs: seq<RefLink>, st: BlockState, line: seq<char>)
    ensures PiecesHtml(cfg, refs, CloseList(st) + (if st.inTable then [] else [Markup("<table>\n<thead>\n")])
                                  + [Row(line, true), Markup("</thead>\n<tbody>\n")])
      == (if st.inList then ListClose(st.ordered) else []) + (if st.inTable then [] else "<table>\n<thead>\n")
         + TableRowHtml(cfg, refs, line, true) + "</thead>\n<tbody>\n"
  {
    HeaderRowFrame(cfg, refs, st, line, "<table>\n<thead>\n", "</thead>\n<tbody>\n");
  }

  /** `HeaderRowHtml` for any opening and closing markup. */
  lemma HeaderRowFrame(cfg: Config, refs: seq<RefLink>, st: BlockState, line: seq<char>, o: seq<char>, c: seq<char>)
    ensures PiecesHtml(cfg, refs, CloseList(st) + (if st.inTable then [] else [Markup(o)]) + [Row(line, true), Markup(c)])
      == (if st.inList then ListClose(st.ordered) else []) + (if st.inTable then [] else o)
         + TableRowHtml(cfg, refs, line, true) + c
  {
    var open := if st.inTable then [] else [Markup(o)];
    PiecesHtmlFrame(cfg, refs, CloseList(st), open, Row(line, true), Markup(c));
    OptionalMarkupHtml(cfg, refs, st.inList, ListClose(st.ordered));
    OptionalMarkupHtml(cfg, refs, !st.inTable, o);
    assert PiecesHtml(cfg, refs, open) == if st.inTable then [] else o;
    assert PieceHtml(cfg, refs, Row(line, true)) == TableRowHtml(cfg, refs, line, true);
  }

  /** Pieces `lead + open + [middle, close]` give their HTML one after the other. */
  lemma PiecesHtmlFrame(cfg: Config, refs: seq<RefLink>, lead: seq<Piece>, open: seq<Piece>, middle: Piece, close: Piece)
    ensures PiecesHtml(cfg, refs, lead + open + [middle, close])
      == PiecesHtml(cfg, refs, lead) + PiecesHtml(cfg, refs, open) + PieceHtml(cfg, refs, middle) + PieceHtml(cfg, refs, close)
  {
    PiecesHtmlConcat(cfg, refs, lead + open, [middle, close]);
    PiecesHtmlConcat(cfg, refs, lead, open);
    assert [middle, close] == [middle] + [close];
    PiecesHtmlConcat(cfg, refs, [middle], [close]);
    PiecesHtmlSingle(cfg, refs, middle);
    PiecesHtmlSingle(cfg, refs, close);
  }

  /** A markup piece present only when `present` holds gives its text then, and nothing otherwise. */
  lemma OptionalMarkupHtml(cfg: Config, refs: seq<RefLink>, present: bool, text: seq<char>)
    ensures PiecesHtml(cfg, refs, if present then [Markup(text)] else []) == if present then text else []
  {
    PiecesHtmlSingle(cfg, refs, Markup(text));
    assert PiecesHtml(cfg, refs, []) == [];
  }

  /** The HTML of a table-branch step whose next line is a separator row. */
  lemma TableHeaderHtml(cfg: Config, refs: seq<RefLink>, md: seq<char>, line: seq<char>, next: nat, st: BlockState)
    requires next <= |md| && IsTableSeparator(LineAt(md, next))
    ensures PiecesHtml(cfg, refs, TableStep(md, line, next, st).pieces)
      == (if st.inList then ListClose(st.ordered) else [])
         + ((if st.inTable then [] else "<table>\n<thead>\n") + TableRowHtml(cfg, refs, line, true) + "</thead>\n<tbody>\n")
  {
    HeaderRowHtml(cfg, refs, st, line);
    var lead := if st.inList then ListClose(st.ordered) else [];
    var open: seq<char> := if st.inTable then [] else "<table>\n<thead>\n";
    var row := TableRowHtml(cfg, refs, line, true);
    Regroup(lead, open, row, "</thead>\n<tbody>\n");
  }

  lemma Regroup(a: seq<char>, b: seq<char>, c: seq<char>, d: seq<char>)
    ensures a + b + c + d == a + (b + c + d)
  {
  }

  /** The HTML of a table-branch step whose next line is not a separator row. */
  lemma TableBodyHtml(cfg: Config, refs: seq<RefLink>, md: seq<char>, line: seq<char>, next: nat, st: BlockState)
    requires next <= |md| && !IsTableSeparator(LineAt(md, next))
    ensures PiecesHtml(cfg, refs, TableStep(md, line, next, st).pieces)
      == (if st.inList then ListClose(st.ordered) else [])
         + (if st.inTable then TableRowHtml(cfg, refs, line, false) else ParagraphHtml(cfg, refs, line))
  {
    var last := if st.inTable then Row(line, false) else Para(line);
    assert TableStep(md, line, next, st).pieces == CloseList(st) + [last];
    ListLeadHtml(cfg, refs, st, last);
    BodyPieceHtml(cfg, refs, line, st.inTable);
  }

  /** A body row inside a table, or a paragraph outside one. */
  lemma BodyPieceHtml(cfg: Config, refs: seq<RefLink>, line: seq<char>, inTable: bool)
    ensures PieceHtml(cfg, refs, if inTable then Row(line, false) else Para(line))
      == if inTable then TableRowHtml(cfg, refs, line, false) else ParagraphHtml(cfg, refs, line)
  {
  }

  // ---------------------------------------------------------------------------
  // Properties of the line walk
  // ---------------------------------------------------------------------------

  /**
   * Parsing only ever puts definitions at the head of the table: afterwards it
   * is the document's definitions, last first, in front of the table it started
   * with, whatever was in it.
   */
  lemma {:induction false} EmitRefs(cfg: Config, refs: seq<RefLink>, steps: seq<Step>)
    ensures Emit(cfg, refs, steps).1 == Definitions(steps) + refs
    decreases |steps|
  {
    if steps != [] {
      var d := if steps[0].def.Some? then [steps[0].def.value] else [];
      assert Define(refs, steps[0]) == d + refs;
      EmitRefs(cfg, d + refs, steps[1..]);
      assert Emit(cfg, refs, steps).1 == Emit(cfg, d + refs, steps[1..]).1;
      assert Definitions(steps) == Definitions(steps[1..]) + d;
      assert Definitions(steps[1..]) + (d + refs) == (Definitions(steps[1..]) + d) + refs;
    }
  }

  /** The last of `steps` closes what the state it carries leaves open, defines nothing and sits at the end of `md`. */
  predicate EndsWithFinish(md: seq<char>, steps: seq<Step>)
    requires steps != []
  {
    var last := steps[|steps| - 1];
    last.pieces == Finish(last.state) && last.def.None? && At(md, last.next) == NUL
  }

  /** Every walk ends with the step that closes what the last line left open, and that step defines nothing. */
  lemma {:induction false} StepsEndWithFinish(cfg: Config, md: seq<char>, p: nat, st: BlockState)
    requires p <= |md|
    ensures EndsWithFinish(md, Steps(cfg, md, p, st))
    decreases |md| - p
  {
    if At(md, p) != NUL {
      var s := LineStep(cfg, md, p, st);
      var rest := Steps(cfg, md, s.next, s.state);
      StepsEndWithFinish(cfg, md, s.next, s.state);
      assert Steps(cfg, md, p, st) == [s] + rest;
      LastOfCons(s, rest);
    }
  }

  /** The last element of a non-empty sequence with one more in front is unchanged. */
  lemma LastOfCons<T>(x: T, rest: seq<T>)
    requires rest != []
    ensures ([x] + rest)[|rest|] == rest[|rest| - 1]
  {
  }

  /** The end of the document closes a code block, then a list, then a table, whichever are open. */
  lemma EndClosesInOrder(cfg: Config, refs: seq<RefLink>, st: BlockState)
    ensures PiecesHtml(cfg, refs, Finish(st))
      == (if st.inCode then "</code></pre>\n" else []) + (if st.inList then ListClose(st.ordered) else [])
         + (if st.inTable then TableClose else [])
  {
    var a := if st.inCode then [Markup("</code></pre>\n")] else [];
    PiecesHtmlConcat(cfg, refs, a + CloseList(st), CloseTable(st));
    PiecesHtmlConcat(cfg, refs, a, CloseList(st));
    PiecesHtmlSingle(cfg, refs, Markup("</code></pre>\n"));
    PiecesHtmlSingle(cfg, refs, Markup(ListClose(st.ordered)));
    PiecesHtmlSingle(cfg, refs, Markup(TableClose));
    assert PiecesHtml(cfg, refs, []) == [];
  }

  /**
   * Inside a code block nothing is interpreted: a fence line closes the block,
   * and any other line is copied escaped, followed by a newline, with nothing
   * else changed.
   */
  lemma CodeBlockVerbatim(cfg: Config, md: seq<char>, p: nat, st: BlockState)
    requires p < |md| && md[p] != NUL && st.inCode
    ensures var s := LineStep(cfg, md, p, st);
      && s.def.None? && s.next == After(md, p)
      && (IsCodeFence(LineAt(md, p)) ==> s.pieces == [Markup("</code></pre>\n")] && s.state == st.(inCode := false))
      && (!IsCodeFence(LineAt(md, p)) ==> s.pieces == [Markup(Escape(LineAt(md, p)) + "\n")] && s.state == st)
  {
  }

  /** Outside a code block, a fence line opens one and leaves an open list or table open. */
  lemma FenceOpensCode(cfg: Config, md: seq<char>, p: nat, st: BlockState)
    requires p < |md| && md[p] != NUL && !st.inCode && IsCodeFence(LineAt(md, p))
    ensures var s := LineStep(cfg, md, p, st);
      s.pieces == [Markup("<pre><code>")] && s.state == st.(inCode := true) && s.def.None?
  {
  }

  /**
   * A reference definition outside a code block emits nothing and changes no
   * open block; only the table gains the definition.
   */
  lemma DefinitionEmitsNothing(cfg: Config, md: seq<char>, p: nat, st: BlockState)
    requires p < |md| && md[p] != NUL && !st.inCode
    requires !IsCodeFence(LineAt(md, p)) && RefDefinition(LineAt(md, p)).Some?
    ensures var s := LineStep(cfg, md, p, st);
      s.pieces == [] && s.state == st && s.def == RefDefinition(LineAt(md, p)) && s.next == After(md, p)
  {
  }

  /** The kinds of line that end an open list and an open table before their own output. */
  predicate ClosesBlocks(cfg: Config, line: seq<char>)
  {
    line == [] || IsHeaderLine(line) || IsHorizontalRule(line) || IsBlockquote(line)
    || (!IsListItem(line) && !(cfg.enableTables && HasChar(line, '|')))
  }

  /**
   * A blank line, heading, rule, blockquote or paragraph closes the list
   * first, then the table, and leaves neither open; the code-block flag and the
   * list kind are untouched.
   */
  lemma ClosingOrder(cfg: Config, md: seq<char>, p: nat, st: BlockState)
    requires p < |md| && md[p] != NUL && !st.inCode
    requires !IsCodeFence(LineAt(md, p)) && RefDefinition(LineAt(md, p)).None?
    requires ClosesBlocks(cfg, LineAt(md, p))
    ensures var s := LineStep(cfg, md, p, st);
      && |s.pieces| == |CloseList(st)| + |CloseTable(st)| + 1
      && s.pieces[..|s.pieces| - 1] == CloseList(st) + CloseTable(st)
      && s.state == BlockState(false, false, st.ordered, false)
      && s.def.None? && s.next == After(md, p)
  {
  }

  /** A line such as `- - -` is both a list item and a rule; the rule wins because it is tested first. */
  lemma RuleBeforeList(cfg: Config, md: seq<char>, p: nat, st: BlockState)
    requires p < |md| && md[p] != NUL && !st.inCode && LineAt(md, p) == "- - -"
    ensures IsListItem(LineAt(md, p))
    ensures LineStep(cfg, md, p, st).pieces == Closing(st, Markup("<hr>\n"))
  {
    var line := LineAt(md, p);
    assert RuleOf(line, '-') by {
      assert CountFrom(line, 4, '-') == 1;
      assert CountFrom(line, 2, '-') == 2;
      assert CountFrom(line, 0, '-') == 3;
    }
    HorizontalRuleIff(line);
  }

  /**
   * A list item closes an open table, opens a list when none is open (ordered
   * exactly when the item starts with a digit) and otherwise continues the
   * open one: the kind of a list is fixed by its first item.
   */
  lemma ListItemStep(cfg: Config, md: seq<char>, p: nat, st: BlockState)
    requires p < |md| && md[p] != NUL && !st.inCode
    requires var line := LineAt(md, p);
      && !IsCodeFence(line) && RefDefinition(line).None? && !ClosesBlocks(cfg, line) && IsListItem(line)
    ensures var s := LineStep(cfg, md, p, st);
      && s.state.inList && !s.state.inTable && s.state.inCode == st.inCode
      && s.state.ordered == (if st.inList then st.ordered else IsDigit(LineAt(md, p)[0]))
      && s.pieces[|s.pieces| - 1] == Item(LineAt(md, p))
      && (st.inList ==> s.pieces == CloseTable(st) + [Item(LineAt(md, p))])
      && (!st.inList ==>
            s.pieces == CloseTable(st) + [Markup(if s.state.ordered then "<ol>\n" else "<ul>\n"), Item(LineAt(md, p))])
  {
  }

  /**
   * A line with a pipe followed by a separator row is a header row: a table is
   * opened unless one is open, the separator line is skipped, and the list is
   * closed first.
   */
  lemma TableHeaderStep(cfg: Config, md: seq<char>, p: nat, st: BlockState)
    requires p < |md| && md[p] != NUL && !st.inCode
    requires var line := LineAt(md, p);
      && !IsCodeFence(line) && RefDefinition(line).None? && !ClosesBlocks(cfg, line) && !IsListItem(line)
      && IsTableSeparator(LineAt(md, After(md, p)))
    ensures var s := LineStep(cfg, md, p, st);
      && s.pieces == CloseList(st) + (if st.inTable then [] else [Markup("<table>\n<thead>\n")])
                     + [Row(LineAt(md, p), true), Markup("</thead>\n<tbody>\n")]
      && s.state == st.(inList := false, inTable := true)
      && s.next == After(md, After(md, p))
  {
  }

  /** Without a separator below, a piped line is a data row inside a table and a paragraph outside one. */
  lemma TableBodyStep(cfg: Config, md: seq<char>, p: nat, st: BlockState)
    requires p < |md| && md[p] != NUL && !st.inCode
    requires var line := LineAt(md, p);
      && !IsCodeFence(line) && RefDefinition(line).None? && !ClosesBlocks(cfg, line) && !IsListItem(line)
      && !IsTableSeparator(LineAt(md, After(md, p)))
    ensures var s := LineStep(cfg, md, p, st);
      && s.pieces == CloseList(st) + [if st.inTable then Row(LineAt(md, p), false) else Para(LineAt(md, p))]
      && s.state == st.(inList := false) && s.next == After(md, p)
  {
  }
}
