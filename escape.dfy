/**
 * HTML escaping: the five-entry entity table (marker.c:46-56), the variant that
 * writes into a fixed-size caller array (`marker_escape_html`, marker.c:282-313)
 * and the variant that appends to an output buffer (`append_escaped_html`,
 * marker.c:315-337).
 */
module Escaping {
  import opened Options
  import opened Chars
  import opened Results
  import opened OutputBuffer

  /**
   * The entity `html_entities` (marker.c:46-56) gives for `c`: the table lists
   * `& < > " '` and the scan over it stops at the first matching row.
   */
  function Entity(c: char): Option<string>
  {
    if c == '&' then Some("&amp;")
    else if c == '<' then Some("&lt;")
    else if c == '>' then Some("&gt;")
    else if c == '"' then Some("&quot;")
    else if c == '\'' then Some("&#39;")
    else None
  }

  /** What one input character becomes: its entity, or itself. */
  function EscapeChar(c: char): seq<char>
  {
    match Entity(c)
    case Some(e) => e
    case None => [c]
  }

  /** The escaped form of a whole text, character by character. */
  function Escape(s: seq<char>): seq<char>
  {
    if s == [] then [] else EscapeChar(s[0]) + Escape(s[1..])
  }

  /** Escaping works character by character, so it distributes over concatenation. */
  lemma {:induction false} EscapeConcat(a: seq<char>, b: seq<char>)
    ensures Escape(a + b) == Escape(a) + Escape(b)
  {
    if a != [] {
      assert (a + b)[0] == a[0];
      assert (a + b)[1..] == a[1..] + b;
      EscapeConcat(a[1..], b);
    } else {
      assert a + b == b;
    }
  }

  /** Escaping a prefix one character longer appends that character's escape. */
  lemma EscapeSnoc(s: seq<char>, i: nat)
    requires i < |s|
    ensures Escape(s[..i + 1]) == Escape(s[..i]) + EscapeChar(s[i])
  {
    assert s[..i + 1] == s[..i] + [s[i]];
    EscapeConcat(s[..i], [s[i]]);
  }

  /** A single character escapes to itself or to an entity of four to six characters starting with '&'. */
  lemma EscapeCharShape(c: char)
    ensures Entity(c).None? ==> EscapeChar(c) == [c]
    ensures Entity(c).Some? ==> 4 <= |EscapeChar(c)| <= 6 && EscapeChar(c)[0] == '&'
    ensures '<' !in EscapeChar(c) && '>' !in EscapeChar(c) && '"' !in EscapeChar(c) && '\'' !in EscapeChar(c)
    ensures Escape([c]) == EscapeChar(c)
  {
    assert [c][1..] == [];
  }

  /** Escaping never shortens a text, and a text that grows contains a special character. */
  lemma {:induction false} EscapeLength(s: seq<char>)
    ensures |Escape(s)| >= |s|
    ensures |Escape(s)| == |s| <==> (forall k :: 0 <= k < |s| ==> Entity(s[k]).None?)
  {
    if s != [] {
      EscapeCharShape(s[0]);
      EscapeLength(s[1..]);
      assert forall k :: 1 <= k < |s| ==> s[k] == s[1..][k - 1];
    }
  }

  /** Escaping leaves a text alone exactly when none of its characters has an entity. */
  lemma {:induction false} EscapeIdentity(s: seq<char>)
    ensures Escape(s) == s <==> (forall k :: 0 <= k < |s| ==> Entity(s[k]).None?)
  {
    EscapeLength(s);
    if s != [] {
      EscapeCharShape(s[0]);
      EscapeIdentity(s[1..]);
      assert forall k :: 1 <= k < |s| ==> s[k] == s[1..][k - 1];
    }
  }

  /** Escaped text carries none of `< > " '`; each of them only appears inside an entity's source. */
  lemma {:induction false} EscapeHasNoMarkup(s: seq<char>)
    ensures '<' !in Escape(s) && '>' !in Escape(s) && '"' !in Escape(s) && '\'' !in Escape(s)
  {
    if s != [] {
      EscapeCharShape(s[0]);
      EscapeHasNoMarkup(s[1..]);
      assert Escape(s) == EscapeChar(s[0]) + Escape(s[1..]);
    }
  }

  /** Decodes the five entities the escaper produces; every other character stands for itself. */
  function Unescape(s: seq<char>): seq<char>
  {
    if s == [] then []
    else if "&amp;" <= s then ['&'] + Unescape(s[5..])
    else if "&lt;" <= s then ['<'] + Unescape(s[4..])
    else if "&gt;" <= s then ['>'] + Unescape(s[4..])
    else if "&quot;" <= s then ['"'] + Unescape(s[6..])
    else if "&#39;" <= s then ['\''] + Unescape(s[5..])
    else [s[0]] + Unescape(s[1..])
  }

  lemma UnescapeOne(c: char, t: seq<char>)
    ensures Unescape(EscapeChar(c) + t) == [c] + Unescape(t)
  {
    if Entity(c).Some? {
      UnescapeEntity(c, EscapeChar(c) + t, t);
    } else {
      var s := [c] + t;
      assert s[0] == c && s[1..] == t;
    }
  }

  /** Decoding one entity the escaper wrote gives back its character, then decoding goes on after it. */
  lemma UnescapeEntity(c: char, s: seq<char>, t: seq<char>)
    requires Entity(c).Some? && s == Entity(c).value + t
    ensures Unescape(s) == [c] + Unescape(t)
  {
    var n := |Entity(c).value|;
    assert s[..n] == Entity(c).value && s[n..] == t;
    if c != '&' {
      assert s[1] != 'a';
      if c != '<' {
        assert s[1] != 'l';
        if c != '>' {
          assert s[1] != 'g';
          if c != '"' {
            assert s[1] != 'q';
          }
        }
      }
    }
  }

  /** Escaping loses nothing: decoding the entities gives the original text back. */
  lemma {:induction false} UnescapeEscape(s: seq<char>)
    ensures Unescape(Escape(s)) == s
  {
    if s != [] {
      UnescapeOne(s[0], Escape(s[1..]));
      UnescapeEscape(s[1..]);
    }
  }

  /** Escaping is not idempotent: an ampersand is escaped again on every pass. */
  lemma EscapeNotIdempotent()
    ensures Escape("&") == "&amp;"
    ensures Escape(Escape("&")) == "&amp;amp;"
    ensures Escape(Escape("&")) != Escape("&")
  {
    assert Escape("&") == EscapeChar('&') + Escape([]);
    var e := "&amp;";
    assert Escape(e) == EscapeChar('&') + Escape("amp;");
    assert Escape("amp;") == "amp;" by {
      assert Escape("amp;") == EscapeChar('a') + Escape("mp;");
      assert Escape("mp;") == EscapeChar('m') + Escape("p;");
      assert Escape("p;") == EscapeChar('p') + Escape(";");
      assert Escape(";") == EscapeChar(';') + Escape([]);
    }
  }

  /**
   * When `marker_escape_html` accepts a text for an array of `size` slots: the
   * escaped text must leave room for the terminator, and one more slot when the
   * text ends with a special character, because an entity is only written when
   * it ends strictly before the last slot (marker.c:295).
   */
  predicate EscapeFits(text: seq<char>, size: nat)
  {
    |Escape(text)| + (if text != [] && Entity(text[|text| - 1]).Some? then 1 else 0) < size
  }

  /** The boundary case: "&" escapes to 5 characters that fit with their terminator in 6 slots, yet it is refused. */
  lemma EscapeFitsRefusesExactFit()
    ensures |Escape("&")| + 1 <= 6
    ensures !EscapeFits("&", 6)
  {
    assert Escape("&") == EscapeChar('&') + Escape([]);
  }

  /**
   * `marker_escape_html` (marker.c:282-313), writing into `output`, whose length
   * is `output_size`. NULL arguments or a zero size give NULL_POINTER and leave
   * the array alone; otherwise the result is OK exactly when `EscapeFits`, and
   * then the array holds the escaped text and a terminator.
   */
  method EscapeInto(text: Option<seq<char>>, output: array?<char>) returns (r: ResultCode)
    requires text.Some? ==> NoNul(text.value)
    modifies output
    ensures text.None? || output == null || output.Length == 0 <==> r == NullPointer
    ensures r == NullPointer ==> output == null || unchanged(output)
    ensures r != NullPointer ==> (r == Ok <==> EscapeFits(text.value, output.Length))
    ensures r != NullPointer ==> r == Ok || r == BufferTooSmall
    ensures r == Ok ==> (|Escape(text.value)| < output.Length
      && output[..|Escape(text.value)|] == Escape(text.value)
      && output[|Escape(text.value)|] == NUL)
  {
    if text.None? || output == null || output.Length == 0 {
      return NullPointer;
    }
    var t := text.value;
    var size := output.Length;
    var outPos := 0;
    var inPos := 0;
    while At(t, inPos) != NUL && outPos < size - 1
      invariant inPos <= |t|
      invariant outPos == |Escape(t[..inPos])| && outPos < size
      invariant output[..outPos] == Escape(t[..inPos])
      invariant inPos > 0 ==> EscapeFits(t[..inPos], size)
      decreases |t| - inPos
    {
      EscapeSnoc(t, inPos);
      EscapeCharShape(t[inPos]);
      var c := t[inPos];
      match Entity(c) {
        case Some(e) =>
          if outPos + |e| >= size - 1 {
            EscapeRefusedAt(t, inPos, size);
            return BufferTooSmall;
          }
          EscapeFitsStep(t, inPos, size);
          StrCopy(output, outPos, e);
          outPos := outPos + |e|;
        case None =>
          EscapeFitsStep(t, inPos, size);
          output[outPos] := c;
          outPos := outPos + 1;
      }
      inPos := inPos + 1;
    }
    output[outPos] := NUL;
    if At(t, inPos) != NUL {
      EscapeRefusedAt(t, inPos, size);
      return BufferTooSmall;
    }
    assert t[..inPos] == t;
    return Ok;
  }

  /** `strcpy(output + pos, s)`: the string and its terminator overwrite the slots from `pos`. */
  method StrCopy(output: array<char>, pos: nat, s: seq<char>)
    requires pos + |s| < output.Length
    modifies output
    ensures output[..pos + |s|] == old(output[..pos]) + s
    ensures output[pos + |s|] == NUL
  {
    forall k | 0 <= k < |s| {
      output[pos + k] := s[k];
    }
    output[pos + |s|] := NUL;
  }

  /** Writing the next character keeps the written prefix acceptable while it and its margin stay below `size`. */
  lemma EscapeFitsStep(t: seq<char>, i: nat, size: nat)
    requires i < |t|
    requires |Escape(t[..i])| + |EscapeChar(t[i])| + (if Entity(t[i]).Some? then 1 else 0) < size
    ensures EscapeFits(t[..i + 1], size)
  {
    EscapeSnoc(t, i);
    assert t[..i + 1][i] == t[i];
  }

  /** Once the escaped prefix before position `i` plus what `t[i]` needs no longer fits, the whole text does not fit. */
  lemma EscapeRefusedAt(t: seq<char>, i: nat, size: nat)
    requires i < |t|
    requires |Escape(t[..i])| + |EscapeChar(t[i])| + (if Entity(t[i]).Some? then 1 else 0) >= size
    ensures !EscapeFits(t, size)
  {
    EscapeSnoc(t, i);
    if i + 1 == |t| {
      assert t[..i + 1] == t;
    } else {
      EscapeTooLongAt(t, i + 1);
      EscapeCharShape(t[i + 1]);
      EscapeCharShape(t[i]);
    }
  }

  /**
   * The same write loop with the entity bound the plain-character path already
   * uses: an entity is written when it and the terminator fit. It accepts a text
   * exactly when its escaped form and the terminator fit in the array.
   */
  method EscapeIntoExact(text: Option<seq<char>>, output: array?<char>) returns (r: ResultCode)
    requires text.Some? ==> NoNul(text.value)
    modifies output
    ensures text.None? || output == null || output.Length == 0 <==> r == NullPointer
    ensures r == NullPointer ==> output == null || unchanged(output)
    ensures r != NullPointer ==> (r == Ok <==> |Escape(text.value)| < output.Length)
    ensures r != NullPointer ==> r == Ok || r == BufferTooSmall
    ensures r == Ok ==> (output[..|Escape(text.value)|] == Escape(text.value)
      && output[|Escape(text.value)|] == NUL)
  {
    if text.None? || output == null || output.Length == 0 {
      return NullPointer;
    }
    var t := text.value;
    var size := output.Length;
    var outPos := 0;
    var inPos := 0;
    while At(t, inPos) != NUL && outPos < size - 1
      invariant inPos <= |t|
      invariant outPos == |Escape(t[..inPos])| && outPos < size
      invariant output[..outPos] == Escape(t[..inPos])
      decreases |t| - inPos
    {
      EscapeSnoc(t, inPos);
      EscapeCharShape(t[inPos]);
      var c := t[inPos];
      match Entity(c) {
        case Some(e) =>
          if outPos + |e| >= size {
            EscapeTooLongAt(t, inPos);
            return BufferTooSmall;
          }
          StrCopy(output, outPos, e);
          outPos := outPos + |e|;
        case None =>
          output[outPos] := c;
          outPos := outPos + 1;
      }
      inPos := inPos + 1;
    }
    output[outPos] := NUL;
    if At(t, inPos) != NUL {
      EscapeTooLongAt(t, inPos);
      return BufferTooSmall;
    }
    assert t[..inPos] == t;
    return Ok;
  }

  /** The escaped form of a text is at least as long as that of any of its prefixes plus the next character. */
  lemma EscapeTooLongAt(t: seq<char>, i: nat)
    requires i < |t|
    ensures |Escape(t)| >= |Escape(t[..i])| + |EscapeChar(t[i])|
  {
    var p, q := t[..i + 1], t[i + 1..];
    assert p + q == t;
    EscapeConcat(p, q);
    EscapeSnoc(t, i);
  }

  /** One more character escaped after `prefix`. */
  lemma EscapeExtend(prefix: seq<char>, text: seq<char>, i: nat)
    requires i < |text|
    ensures prefix + Escape(text[..i]) + EscapeChar(text[i]) == prefix + Escape(text[..i + 1])
  {
    EscapeSnoc(text, i);
  }

  /** `append_escaped_html` (marker.c:315-337): appends the escaped form of all of `text`. */
  method AppendEscaped(buf: Buffer, text: seq<char>)
    requires buf.Valid()
    modifies buf.Repr
    ensures buf.Valid() && fresh(buf.Repr - old(buf.Repr))
    ensures buf.Contents() == old(buf.Contents()) + Escape(text)
  {
    ghost var start := buf.Contents();
    for i := 0 to |text|
      invariant buf.Valid() && fresh(buf.Repr - old(buf.Repr))
      invariant buf.Contents() == start + Escape(text[..i])
    {
      buf.Append(EscapeChar(text[i]));
      EscapeExtend(start, text, i);
    }
    assert text[..|text|] == text;
  }
}
