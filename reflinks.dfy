/**
 * The reference-link table (`marker_ref_link_t`, marker.h:55-60) and its lookup
 * (`find_reference_link`, marker.c:267-279). The C chain grows at its head, so
 * the table is a sequence with the most recently added definition first.
 */
module ReferenceLinks {
  import opened Options
  import opened Chars

  /** A stored definition; `title` is None where the C record holds a NULL title. */
  datatype RefLink = RefLink(name: string, url: string, title: Option<string>)

  /** Whether a stored definition's label names `name`, comparing with `strcasecmp`. */
  predicate Names(r: RefLink, name: string)
  {
    CaseCompare(r.name, name) == 0
  }

  /**
   * The walk from the head of the chain: the first, hence most recently added,
   * entry whose label matches `name` ignoring ASCII case.
   */
  function Find(refs: seq<RefLink>, name: string): (r: Option<RefLink>)
    ensures r.Some? ==> exists i :: (0 <= i < |refs| && refs[i] == r.value && Names(refs[i], name)
      && (forall j :: 0 <= j < i ==> !Names(refs[j], name)))
    ensures r.None? <==> forall i :: 0 <= i < |refs| ==> !Names(refs[i], name)
  {
    if refs == [] then None
    else if Names(refs[0], name) then Some(refs[0])
    else
      var r := Find(refs[1..], name);
      assert forall i :: 1 <= i < |refs| ==> refs[i] == refs[1..][i - 1];
      r
  }

  /**
   * Adding a definition at the head shadows every older one with the same name
   * up to case, and leaves lookups of every other name as they were.
   */
  lemma FindAfterAdd(e: RefLink, refs: seq<RefLink>, name: string)
    requires NoNul(e.name) && NoNul(name)
    ensures Find([e] + refs, name) == if Fold(e.name) == Fold(name) then Some(e) else Find(refs, name)
  {
    CaseCompareZeroIff(e.name, name);
    assert ([e] + refs)[1..] == refs;
  }

  /** Lookup ignores ASCII case: a definition stored as "Foo" is found as "FOO". */
  lemma FindIgnoresCase()
    ensures Find([RefLink("Foo", "/foo", None)], "FOO") == Some(RefLink("Foo", "/foo", None))
  {
    assert CaseCompare("Foo", "FOO") == 0;
  }
}
