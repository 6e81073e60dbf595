/**
 * The loop of `parse_inline_content` (marker.c:962-1131) over the output buffer:
 * each iteration appends what `Scan` decides at the current position, and
 * emphasis, strikethrough and link text are rendered by a recursive call, on the
 * same string or on a copy of the link text.
 */
module InlineEngine {
  import opened Chars
  import opened Configuration
  import opened ReferenceLinks
  import opened OutputBuffer
  import opened InlineSyntax

  /**
   * Appends the rendering of `text` from `pos` up to `end` or the terminator,
   * and answers the position where the loop stopped.
   */
  method ParseInlineContent(cfg: Config, refs: seq<RefLink>, text: seq<char>, pos: nat, end: nat, out: Buffer)
    returns (stop: nat)
    requires out.Valid()
    modifies out.Repr
    ensures out.Valid() && fresh(out.Repr - old(out.Repr))
    ensures out.Contents() == old(out.Contents()) + Render(cfg, refs, text, pos, end)
    ensures pos <= stop && (stop >= end || At(text, stop) == NUL)
    decreases |text| - pos, 3
  {
    var cur := pos;
    while cur < end && At(text, cur) != NUL
      invariant out.Valid() && fresh(out.Repr - old(out.Repr))
      invariant pos <= cur
      invariant old(out.Contents()) + Render(cfg, refs, text, pos, end)
        == out.Contents() + Render(cfg, refs, text, cur, end)
      decreases |text| - cur
    {
      cur := EmitStep(cfg, refs, text, cur, end, out);
    }
    return cur;
  }

  /** One iteration of the loop: whatever `Scan` decides at `pos` is appended. */
  method EmitStep(cfg: Config, refs: seq<RefLink>, text: seq<char>, pos: nat, end: nat, out: Buffer)
    returns (next: nat)
    requires pos < end && At(text, pos) != NUL
    requires out.Valid()
    modifies out.Repr
    ensures out.Valid() && fresh(out.Repr - old(out.Repr))
    ensures pos < next
    ensures out.Contents() + Render(cfg, refs, text, next, end) == old(out.Contents()) + Render(cfg, refs, text, pos, end)
    decreases |text| - pos, 2
  {
    ghost var before := out.Contents();
    ghost var whole := Render(cfg, refs, text, pos, end);
    var t := Scan(cfg, refs, text, pos);
    match t
    case Leaf(html, n) =>
      RenderLeaf(cfg, refs, text, pos, end);
      ghost var rest := Render(cfg, refs, text, n, end);
      out.Append(html);
      SeqAssoc(before, html, rest);
      next := n;
    case Picture(dest, alt, n) =>
      RenderPicture(cfg, refs, text, pos, end);
      ghost var rest := Render(cfg, refs, text, n, end);
      var html := ImageTag(cfg, dest, alt);
      out.Append(html);
      SeqAssoc(before, html, rest);
      next := n;
    case Span(_, _, _, _) =>
      next := EmitSpan(cfg, refs, text, pos, end, out);
    case Anchor(_, _, _) =>
      next := EmitAnchor(cfg, refs, text, pos, end, out);
  }

  /** Emphasis, strong or strikethrough at `pos`: the tag around a nested pass over the same text. */
  method EmitSpan(cfg: Config, refs: seq<RefLink>, text: seq<char>, pos: nat, end: nat, out: Buffer)
    returns (next: nat)
    requires pos < end && At(text, pos) != NUL && Scan(cfg, refs, text, pos).Span?
    requires out.Valid()
    modifies out.Repr
    ensures out.Valid() && fresh(out.Repr - old(out.Repr))
    ensures next == Scan(cfg, refs, text, pos).next
    ensures out.Contents() + Render(cfg, refs, text, next, end) == old(out.Contents()) + Render(cfg, refs, text, pos, end)
    decreases |text| - pos, 1
  {
    var t := Scan(cfg, refs, text, pos);
    var open, close := "<" + t.tag + ">", "</" + t.tag + ">";
    ghost var before := out.Contents();
    ghost var nested := Render(cfg, refs, text, t.from, t.to);
    ghost var rest := Render(cfg, refs, text, t.next, end);
    assert Render(cfg, refs, text, pos, end) == open + nested + close + rest by {
      RenderSpan(cfg, refs, text, pos, end);
    }
    out.Append(open);
    var _ := ParseInlineContent(cfg, refs, text, t.from, t.to, out);
    out.Append(close);
    SeqAssoc4(before, open, nested, close, rest);
    next := t.next;
  }

  /** A link at `pos`: the opening tag, a nested pass over a copy of the link text, `</a>`. */
  method EmitAnchor(cfg: Config, refs: seq<RefLink>, text: seq<char>, pos: nat, end: nat, out: Buffer)
    returns (next: nat)
    requires pos < end && At(text, pos) != NUL && Scan(cfg, refs, text, pos).Anchor?
    requires out.Valid()
    modifies out.Repr
    ensures out.Valid() && fresh(out.Repr - old(out.Repr))
    ensures next == Scan(cfg, refs, text, pos).next
    ensures out.Contents() + Render(cfg, refs, text, next, end) == old(out.Contents()) + Render(cfg, refs, text, pos, end)
    decreases |text| - pos, 1
  {
    var t := Scan(cfg, refs, text, pos);
    RenderAnchor(cfg, refs, text, pos, end);
    ghost var before := out.Contents();
    ghost var nested := Render(cfg, refs, t.inner, 0, |t.inner|);
    ghost var rest := Render(cfg, refs, text, t.next, end);
    var open := OpenTag(cfg, t.target);
    out.Append(open);
    var _ := ParseInlineContent(cfg, refs, t.inner, 0, |t.inner|, out);
    out.Append("</a>");
    SeqAssoc4(before, open, nested, "</a>", rest);
    next := t.next;
  }

  lemma SeqAssoc4(a: seq<char>, b: seq<char>, c: seq<char>, d: seq<char>, e: seq<char>)
    ensures a + b + c + d + e == a + (b + c + d + e)
  {
  }
}
