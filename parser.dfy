/**
 * The parser record (`struct marker_parser`, marker.c:16-24), its creation
 * (`marker_parser_new`, marker.c:183-207) and the public reference-link
 * operations (marker.c:219-279). The fields `nesting_depth`, `in_code_block` and
 * `in_html_block` are initialised by the C code and never read, so they are not
 * part of this class.
 */
module Parsers {
  import opened Options
  import opened Results
  import opened Configuration
  import opened ReferenceLinks

  class Parser {
    /** The configuration, copied when the parser is created. */
    const config: Config
    /** The reference-link chain, most recently added definition first. */
    var refs: seq<RefLink>
    /** The reused scratch array each Markdown line is copied into and trimmed in place. */
    var lineBuffer: array<char>

    /** `marker_parser_new`: a NULL configuration means the defaults; allocation is assumed to succeed. */
    constructor (config: Option<Config>)
      ensures this.config == (if config.Some? then config.value else Defaults())
      ensures refs == []
      ensures fresh(lineBuffer) && lineBuffer.Length == MaxLineLength
    {
      this.config := if config.Some? then config.value else Defaults();
      refs := [];
      lineBuffer := new char[MaxLineLength];
    }
  }

  /**
   * `marker_add_reference_link`: NULL_POINTER for a NULL parser, name or url,
   * leaving the table alone; otherwise the definition is put at the head.
   */
  method AddReferenceLink(p: Parser?, name: Option<string>, url: Option<string>, title: Option<string>)
    returns (r: ResultCode)
    modifies p
    ensures r == NullPointer <==> p == null || name.None? || url.None?
    ensures r == Ok || r == NullPointer
    ensures p != null && r == NullPointer ==> p.refs == old(p.refs)
    ensures r == Ok ==> p.refs == [RefLink(name.value, url.value, title)] + old(p.refs)
    ensures p != null ==> p.lineBuffer == old(p.lineBuffer)
  {
    if p == null || name.None? || url.None? {
      return NullPointer;
    }
    p.refs := [RefLink(name.value, url.value, title)] + p.refs;
    return Ok;
  }

  /** `marker_clear_reference_links`: unlinks the chain entry by entry until it is empty. */
  method ClearReferenceLinks(p: Parser?)
    modifies p
    ensures p != null ==> p.refs == [] && p.lineBuffer == old(p.lineBuffer)
  {
    if p == null {
      return;
    }
    while p.refs != []
      invariant p.lineBuffer == old(p.lineBuffer)
      decreases |p.refs|
    {
      p.refs := p.refs[1..];
    }
  }

  /** `find_reference_link`: walks the chain from its head; NULL arguments find nothing. */
  method FindReferenceLink(p: Parser?, name: Option<string>) returns (r: Option<RefLink>)
    ensures p == null || name.None? ==> r.None?
    ensures p != null && name.Some? ==> r == Find(p.refs, name.value)
  {
    if p == null || name.None? {
      return None;
    }
    var current := p.refs;
    while current != []
      invariant Find(p.refs, name.value) == Find(current, name.value)
      decreases |current|
    {
      if Names(current[0], name.value) {
        return Some(current[0]);
      }
      current := current[1..];
    }
    return None;
  }
}
