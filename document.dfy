/**
 * The converter's simplified entry points (marker.c:1786-1874, 1969-2000):
 * `marker_to_html`, which wraps the rendered body in a complete HTML page and
 * copies it into the caller's array, `marker_parse_inline`, which runs only
 * the inline engine, and `marker_validate`, which checks that code fences
 * are balanced.
 */
module Converter {
  import opened Options
  import opened Chars
  import opened Results
  import opened Configuration
  import opened OutputBuffer
  import opened InlineSyntax
  import opened InlineEngine
  import opened Parsers
  import opened BlockSyntax
  import opened BlockEngine

  // ---------------------------------------------------------------------------
  // C strings
  // ---------------------------------------------------------------------------

  /** `strcpy(dst, src)`: the characters of `src` before its terminator, then a NUL; the rest of `dst` is untouched. */
  method CopyString(src: seq<char>, dst: array<char>)
    requires CLength(src) < dst.Length
    modifies dst
    ensures dst[..CLength(src)] == src[..CLength(src)] && dst[CLength(src)] == NUL
    ensures dst[CLength(src) + 1..] == old(dst[CLength(src) + 1..])
  {
    var i := 0;
    while At(src, i) != NUL
      invariant i <= CLength(src)
      invariant dst[..i] == src[..i]
      invariant dst[CLength(src) + 1..] == old(dst[CLength(src) + 1..])
      decreases |src| - i
    {
      dst[i] := src[i];
      i := i + 1;
    }
    dst[i] := NUL;
  }

  // ---------------------------------------------------------------------------
  // marker_to_html
  // ---------------------------------------------------------------------------

  const PageHead: seq<char> := "<!DOCTYPE html><html><head>"
  const PageBody: seq<char> := "</head><body>"
  const PageEnd: seq<char> := "</body></html>"

  /** The stylesheet link of the page head: present only for a CSS name that is given and not empty. */
  function StyleLink(css: Option<seq<char>>): (link: seq<char>)
    ensures link == [] <==> css.None? || css.value == []
  {
    if css.Some? && |css.value| > 0 then "<link rel=\"stylesheet\" href=\"" + css.value + "\">" else []
  }

  /**
   * The page `marker_to_html` builds around a rendered `body`: the head with
   * its optional stylesheet link, then the body, then the closing tags.
   */
  function Page(body: seq<char>, css: Option<seq<char>>): seq<char>
  {
    PageHead + StyleLink(css) + PageBody + body + PageEnd
  }

  /** The body of the page: the document rendered by a fresh parser, with the default settings and no references. */
  function Body(md: seq<char>): seq<char>
  {
    Document(Defaults(), [], md).0
  }

  /** The three appends that write the stylesheet link. */
  method AppendStyleLink(css: Option<seq<char>>, out: Buffer)
    requires out.Valid()
    modifies out.Repr
    ensures out.Valid() && fresh(out.Repr - old(out.Repr))
    ensures out.Contents() == old(out.Contents()) + StyleLink(css)
  {
    if css.Some? && |css.value| > 0 {
      out.Append("<link rel=\"stylesheet\" href=\"");
      out.Append(css.value);
      out.Append("\">");
      SeqAssoc(old(out.Contents()) + "<link rel=\"stylesheet\" href=\"", css.value, "\">");
      SeqAssoc(old(out.Contents()), "<link rel=\"stylesheet\" href=\"", css.value + "\">");
    }
  }

  /** The parsing part of `marker_to_html`: a parser with the default settings renders the document onto `out`. */
  method AppendBody(md: seq<char>, out: Buffer)
    requires out.Valid()
    modifies out.Repr
    ensures out.Valid() && fresh(out.Repr - old(out.Repr))
    ensures out.Contents() == old(out.Contents()) + Body(md)
  {
    var p := new Parser(None);
    var _ := MarkerParse(p, Some(md), out);
  }

  /** The building part of `marker_to_html`: a buffer of `size` characters is created and the page appended to it. */
  method BuildPage(md: seq<char>, css: Option<seq<char>>, size: nat) returns (page: seq<char>)
    ensures page == Page(Body(md), css)
  {
    var out := new Buffer(size);
    out.Append(PageHead);
    assert out.Contents() == PageHead;
    AppendStyleLink(css, out);
    out.Append(PageBody);
    AppendBody(md, out);
    out.Append(PageEnd);
    page := out.Contents();
  }

  /**
   * `marker_to_html`: NULL_POINTER for a missing input or output array or a
   * zero size; BUFFER_TOO_SMALL, with the array untouched, when the page does
   * not fit in `htmlSize` characters with its terminator; otherwise the page
   * is copied into the array as a C string.
   */
  method ToHtml(md: Option<seq<char>>, html: array?<char>, htmlSize: nat, css: Option<seq<char>>) returns (r: ResultCode)
    requires html != null ==> htmlSize <= html.Length
    modifies html
    ensures r == (if md.None? || html == null || htmlSize == 0 then NullPointer
                  else if |Page(Body(md.value), css)| >= htmlSize then BufferTooSmall
                  else Ok)
    ensures r != Ok && html != null ==> unchanged(html)
    ensures r == Ok ==> var page := Page(Body(md.value), css);
      && html[..CLength(page)] == page[..CLength(page)] && html[CLength(page)] == NUL
      && html[CLength(page) + 1..] == old(html[CLength(page) + 1..])
  {
    if md.None? || html == null || htmlSize == 0 {
      return NullPointer;
    }
    var page := BuildPage(md.value, css, htmlSize);
    if |page| >= htmlSize {
      return BufferTooSmall;
    }
    CopyString(page, html);
    return Ok;
  }

  /** The page is at least as long as its fixed frame, so no array of 54 characters or fewer can hold it. */
  lemma PageFrame(body: seq<char>, css: Option<seq<char>>)
    ensures |Page(body, css)| >= |PageHead| + |PageBody| + |PageEnd| == 54
    ensures Page(body, css)[..|PageHead|] == PageHead
    ensures Page(body, css)[|Page(body, css)| - |PageEnd|..] == PageEnd
  {
    Framed(PageHead, StyleLink(css), PageBody, body, PageEnd);
  }

  /** A text built as `h + s + b + body + e` starts with `h` and ends with `e`. */
  lemma Framed(h: seq<char>, s: seq<char>, b: seq<char>, body: seq<char>, e: seq<char>)
    ensures |h + s + b + body + e| == |h| + |s| + |b| + |body| + |e|
    ensures (h + s + b + body + e)[..|h|] == h
    ensures (h + s + b + body + e)[|h + s + b + body + e| - |e|..] == e
  {
    var p := h + s + b + body + e;
    assert p == h + (s + b + body + e);
  }

  /** With a CSS name, the stylesheet link sits right after the head's opening tags. */
  lemma PageStyleLink(body: seq<char>, css: seq<char>)
    requires css != []
    ensures var link := "<link rel=\"stylesheet\" href=\"" + css + "\">";
      Page(body, Some(css))[|PageHead|..|PageHead| + |link|] == link
  {
    var link := "<link rel=\"stylesheet\" href=\"" + css + "\">";
    assert Page(body, Some(css)) == PageHead + link + (PageBody + body + PageEnd);
  }

  /** Without a CSS name, the head holds nothing between its opening and closing tags. */
  lemma PageWithoutStyle(body: seq<char>, css: Option<seq<char>>)
    requires css.None? || css.value == []
    ensures Page(body, css)[..|PageHead| + |PageBody|] == "<!DOCTYPE html><html><head></head><body>"
  {
    assert Page(body, css) == PageHead + PageBody + (body + PageEnd);
  }

  /** The short array of the error-handling test cannot hold any page. */
  lemma SmallArrayTooSmall(md: seq<char>, css: Option<seq<char>>, htmlSize: nat)
    requires 0 < htmlSize <= 54
    ensures |Page(Body(md), css)| >= htmlSize
  {
    PageFrame(Body(md), css);
  }

  // ---------------------------------------------------------------------------
  // marker_parse_inline
  // ---------------------------------------------------------------------------

  /**
   * `marker_parse_inline`: NULL_POINTER for a missing parser, text or buffer,
   * with nothing appended; otherwise the inline engine's rendering of the
   * whole text, up to its terminator, is appended to the buffer.
   */
  method ParseInline(p: Parser?, text: Option<seq<char>>, out: Buffer?) returns (r: ResultCode)
    requires out != null ==> out.Valid()
    requires p != null && out != null ==> p !in out.Repr
    modifies if out != null then out.Repr else {}
    ensures r == (if p == null || text.None? || out == null then NullPointer else Ok)
    ensures out != null ==> out.Valid() && fresh(out.Repr - old(out.Repr))
    ensures r == NullPointer && out != null ==> out.Contents() == old(out.Contents())
    ensures r == Ok ==> out.Contents() == old(out.Contents()) + Render(p.config, p.refs, text.value, 0, CLength(text.value))
  {
    if p == null || text.None? || out == null {
      return NullPointer;
    }
    var _ := ParseInlineContent(p.config, p.refs, text.value, 0, CLength(text.value), out);
    return Ok;
  }

  // ---------------------------------------------------------------------------
  // marker_validate
  // ---------------------------------------------------------------------------

  const NullInputMessage: seq<char> := "Null markdown input"
  const UnclosedFenceMessage: seq<char> := "Unclosed code fence"

  /** Three backticks start at `i`. */
  predicate TicksAt(s: seq<char>, i: nat)
  {
    At(s, i) == '`' && At(s, i + 1) == '`' && At(s, i + 2) == '`'
  }

  /**
   * The number of runs of three backticks from `i` to the terminator, taken
   * left to right without overlap, wherever they stand in a line.
   */
  function FenceCount(s: seq<char>, i: nat): (n: nat)
    ensures At(s, i) == NUL ==> n == 0
    decreases |s| - i
  {
    if At(s, i) == NUL then 0
    else if TicksAt(s, i) then 1 + FenceCount(s, i + 3)
    else FenceCount(s, i + 1)
  }

  /** The counting loop of `marker_validate`. */
  method CountFences(s: seq<char>) returns (count: nat)
    ensures count == FenceCount(s, 0)
  {
    var p := 0;
    count := 0;
    while At(s, p) != NUL
      invariant p <= |s|
      invariant count + FenceCount(s, p) == FenceCount(s, 0)
      decreases |s| - p
    {
      if TicksAt(s, p) {
        count := count + 1;
        p := p + 3;
        continue;
      }
      p := p + 1;
    }
  }

  /** Each counted run takes three characters of its own, so there are at most a third as many runs as characters. */
  lemma {:induction false} FenceCountBound(s: seq<char>, i: nat)
    requires i <= |s|
    ensures 3 * FenceCount(s, i) <= |s| - i
    decreases |s| - i
  {
    if At(s, i) != NUL {
      if TicksAt(s, i) {
        FenceCountBound(s, i + 3);
      } else {
        FenceCountBound(s, i + 1);
      }
    }
  }

  /** A text without backticks holds no fence. */
  lemma {:induction false} FenceCountNoTicks(s: seq<char>, i: nat)
    requires i <= |s| && forall k :: i <= k < |s| ==> s[k] != '`'
    ensures FenceCount(s, i) == 0
    decreases |s| - i
  {
    if At(s, i) != NUL {
      FenceCountNoTicks(s, i + 1);
    }
  }

  /** Runs are counted without overlap: four backticks are one fence and six are two. */
  lemma FenceCountExamples()
    ensures FenceCount("```\nUnclosed code block", 0) == 1
    ensures FenceCount("````", 0) == 1
    ensures FenceCount("``````", 0) == 2
    ensures FenceCount("~~~\n~~~", 0) == 0
  {
    var a := "```\nUnclosed code block";
    FenceCountNoTicks(a, 3);
    assert FenceCount("````", 3) == 0;
    assert FenceCount("``````", 3) == 1;
    FenceCountNoTicks("~~~\n~~~", 0);
  }

  /**
   * What `strncpy(dst, m, size - 1)` followed by `dst[size - 1] = '\0'`
   * leaves in the first `size` cells of `dst`: the message up to its
   * terminator, cut to `size - 1` characters, padded with NULs.
   */
  function Truncated(m: seq<char>, size: nat): (r: seq<char>)
    requires size > 0
    ensures |r| == size
  {
    seq(size, k requires 0 <= k < size => if k < size - 1 && k < CLength(m) then m[k] else NUL)
  }

  /** Read back as a C string, a truncated message is its first `size - 1` characters. */
  lemma TruncatedReadsBack(m: seq<char>, size: nat)
    requires NoNul(m) && size > 0
    ensures var n := if |m| < size - 1 then |m| else size - 1;
      CLength(Truncated(m, size)) == n && Truncated(m, size)[..n] == m[..n]
  {
    CLengthWhole(m);
    var t := Truncated(m, size);
    var n := if |m| < size - 1 then |m| else size - 1;
    assert t[n] == NUL;
    assert forall k :: 0 <= k < n ==> t[k] == m[k];
    ScanToFirst(t, 0, NUL, n);
  }

  /** The message writes of `marker_validate`, into the first `size` cells of `dst`. */
  method WriteMessage(m: seq<char>, dst: array<char>, size: nat)
    requires 0 < size <= dst.Length
    modifies dst
    ensures dst[..size] == Truncated(m, size) && dst[size..] == old(dst[size..])
  {
    var t := Truncated(m, size);
    forall k | 0 <= k < size {
      dst[k] := t[k];
    }
  }

  /**
   * `marker_validate`: false with "Null markdown input" for a missing text,
   * false with "Unclosed code fence" when the number of backtick fences is
   * odd, true otherwise. A message is written only when an array of nonzero
   * size is given; on success nothing is written.
   */
  method Validate(md: Option<seq<char>>, msg: array?<char>, msgSize: nat) returns (valid: bool)
    requires msg != null ==> msgSize <= msg.Length
    modifies msg
    ensures valid <==> md.Some? && FenceCount(md.value, 0) % 2 == 0
    ensures !valid && msg != null && msgSize > 0 ==>
      msg[..msgSize] == Truncated(if md.None? then NullInputMessage else UnclosedFenceMessage, msgSize)
      && msg[msgSize..] == old(msg[msgSize..])
    ensures msg != null && (valid || msgSize == 0) ==> unchanged(msg)
  {
    if md.None? {
      if msg != null && msgSize > 0 {
        WriteMessage(NullInputMessage, msg, msgSize);
      }
      return false;
    }
    var count := CountFences(md.value);
    if count % 2 != 0 {
      if msg != null && msgSize > 0 {
        WriteMessage(UnclosedFenceMessage, msg, msgSize);
      }
      return false;
    }
    return true;
  }

  // ---------------------------------------------------------------------------
  // Batch conversion
  // ---------------------------------------------------------------------------

  /** The outcome of a batch: the result of the first file that failed, or OK when none did. */
  function FirstFailure(results: seq<ResultCode>): (r: ResultCode)
    ensures r == Ok <==> forall i :: 0 <= i < |results| ==> results[i] == Ok
    ensures r != Ok ==> exists i :: (0 <= i < |results| && results[i] == r
      && forall j :: 0 <= j < i ==> results[j] == Ok)
  {
    if results == [] then Ok
    else if results[0] != Ok then results[0]
    else
      var r := FirstFailure(results[1..]);
      assert forall i :: 1 <= i < |results| ==> results[i] == results[1..][i - 1];
      r
  }

  /**
   * `marker_files_to_html_files` over an abstract per-file converter
   * (`marker_file_to_html_file`, whose file I/O is not part of this model):
   * NULL_POINTER for a missing list or a non-positive count; otherwise the
   * files are converted in order and the first failure stops the batch.
   */
  method ConvertFiles(inputs: Option<seq<seq<char>>>, outputs: Option<seq<seq<char>>>, count: int,
                      convert: (seq<char>, seq<char>) -> ResultCode) returns (r: ResultCode)
    requires inputs.Some? && outputs.Some? && count > 0 ==> count <= |inputs.value| && count <= |outputs.value|
    ensures inputs.None? || outputs.None? || count <= 0 ==> r == NullPointer
    ensures inputs.Some? && outputs.Some? && count > 0 ==>
      r == FirstFailure(seq(count, i requires 0 <= i < count => convert(inputs.value[i], outputs.value[i])))
  {
    if inputs.None? || outputs.None? || count <= 0 {
      return NullPointer;
    }
    ghost var results := seq(count, i requires 0 <= i < count => convert(inputs.value[i], outputs.value[i]));
    var i := 0;
    while i < count
      invariant 0 <= i <= count
      invariant forall j :: 0 <= j < i ==> results[j] == Ok
    {
      var result := convert(inputs.value[i], outputs.value[i]);
      if result != Ok {
        assert results[i] == result;
        return result;
      }
      i := i + 1;
    }
    return Ok;
  }
}
