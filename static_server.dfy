/**
 * The path filter of the older static file server, `sanitize_path`
 * (src/main.c:136-143): a request is refused when its path contains two
 * consecutive dots anywhere, and is otherwise joined to the served directory
 * with `snprintf(full_path, size, "%s%s", base_dir, requested_path)`.
 * There is no other check: no leading `/` is demanded and nothing is resolved.
 */
module StaticServer {
  import opened Options
  import opened Chars

  /** The characters of a C string before its terminator. */
  function CText(s: seq<char>): seq<char>
  {
    s[..CLength(s)]
  }

  /** `strstr(s + i, "..") != NULL`: a dot followed by a dot, at or after `i` and before the terminator. */
  function DotDotFrom(s: seq<char>, i: nat): bool
    decreases |s| - i
  {
    if At(s, i) == NUL then false
    else if At(s, i + 1) == '.' && At(s, i) == '.' then true
    else DotDotFrom(s, i + 1)
  }

  /** The reference meaning of "contains `..`": two neighbouring dots somewhere in the text. */
  predicate HasDotDot(t: seq<char>)
  {
    exists k :: 0 <= k < |t| - 1 && t[k] == '.' && t[k + 1] == '.'
  }

  /** The scan from `i` finds two dots exactly when the C text holds a pair at or after `i`. */
  lemma {:induction false} DotDotFromIff(s: seq<char>, i: nat)
    requires i <= CLength(s)
    ensures DotDotFrom(s, i) <==> exists k :: i <= k < CLength(s) - 1 && s[k] == '.' && s[k + 1] == '.'
    decreases |s| - i
  {
    var n := CLength(s);
    if i < n {
      assert At(s, i) == s[i];
      assert At(s, i + 1) == if i + 1 < n then s[i + 1] else NUL;
      DotDotFromIff(s, i + 1);
    }
  }

  /** `strstr(requested_path, "..")` answers whether the C text of the request contains `..`. */
  lemma DotDotScan(s: seq<char>)
    ensures DotDotFrom(s, 0) <==> HasDotDot(CText(s))
  {
    DotDotFromIff(s, 0);
    var t := CText(s);
    assert forall k :: 0 <= k < |t| ==> t[k] == s[k];
  }

  /** What `snprintf(buf, size, "%s%s", a, b)` stores: the joined text cut to `size - 1` characters, then a NUL; nothing when `size` is 0. */
  function JoinTruncated(a: seq<char>, b: seq<char>, size: nat): (w: seq<char>)
    ensures size == 0 ==> w == []
    ensures size > 0 ==> |w| == Min(|CText(a) + CText(b)| + 1, size) && w[|w| - 1] == NUL
    ensures size > 0 ==> w[..|w| - 1] <= CText(a) + CText(b)
  {
    var t := CText(a) + CText(b);
    if size == 0 then [] else t[..Min(|t|, size - 1)] + [NUL]
  }

  function Min(x: int, y: int): int
  {
    if x <= y then x else y
  }

  /**
   * `sanitize_path`: `None` (the function returns 0 and leaves `full_path`
   * unwritten) when the request contains `..`; otherwise the characters
   * written into `full_path` (the function returns 1).
   */
  function SanitizePath(baseDir: seq<char>, requested: seq<char>, size: nat): (r: Option<seq<char>>)
    ensures r.None? <==> HasDotDot(CText(requested))
    ensures r.Some? ==> r.value == JoinTruncated(baseDir, requested, size)
  {
    DotDotScan(requested);
    if DotDotFrom(requested, 0) then None
    else Some(JoinTruncated(baseDir, requested, size))
  }

  /**
   * Read back as a C string, an accepted path is the directory followed by
   * the request, whole when it fits in `size - 1` characters and otherwise
   * cut to that many.
   */
  lemma SanitizedPathReadsBack(baseDir: seq<char>, requested: seq<char>, size: nat)
    requires size > 0 && !HasDotDot(CText(requested))
    ensures SanitizePath(baseDir, requested, size).Some?
    ensures CText(SanitizePath(baseDir, requested, size).value)
      == (CText(baseDir) + CText(requested))[..Min(|CText(baseDir) + CText(requested)|, size - 1)]
    ensures |CText(baseDir) + CText(requested)| < size ==>
      CText(SanitizePath(baseDir, requested, size).value) == CText(baseDir) + CText(requested)
  {
    var t := CText(baseDir) + CText(requested);
    var w := SanitizePath(baseDir, requested, size).value;
    var n := Min(|t|, size - 1);
    assert NoNul(CText(baseDir)) && NoNul(CText(requested));
    assert w == t[..n] + [NUL];
    assert forall k :: 0 <= k < n ==> w[k] == t[k] && w[k] != NUL;
    assert At(w, n) == NUL;
    assert CLength(w) == n;
  }

  /** A request outside the served tree by an absolute path is accepted: `/etc/passwd` under `.` becomes `./etc/passwd`. */
  lemma AbsolutePathExample(baseDir: seq<char>, requested: seq<char>)
    requires baseDir == "." && requested == "/etc/passwd"
    ensures SanitizePath(baseDir, requested, 512) == Some("./etc/passwd\0")
  {
    CLengthWhole(baseDir);
    CLengthWhole(requested);
    assert !HasDotDot(CText(requested));
    var t := CText(baseDir) + CText(requested);
    assert t == "./etc/passwd" && Min(|t|, 511) == |t|;
    assert JoinTruncated(baseDir, requested, 512) == t + [NUL];
    assert SanitizePath(baseDir, requested, 512).Some?;
    assert t + [NUL] == "./etc/passwd\0";
  }

  /** Any `..`, even inside a file name, is refused: `/notes..txt` and `/a/../b` alike. */
  lemma DotDotExamples(base: seq<char>, r1: seq<char>, r2: seq<char>)
    requires r1 == "/notes..txt" && r2 == "/a/../b"
    ensures SanitizePath(base, r1, 512).None? && SanitizePath(base, r2, 512).None?
  {
    CLengthWhole(r1);
    CLengthWhole(r2);
    assert r1[6] == '.' && r1[7] == '.';
    assert r2[3] == '.' && r2[4] == '.';
  }

  /** A path longer than the array is cut silently: `/srv` and `/index.html` in 8 characters give `/srv/in`. */
  lemma TruncationExample(baseDir: seq<char>, requested: seq<char>)
    requires baseDir == "/srv" && requested == "/index.html"
    ensures SanitizePath(baseDir, requested, 8) == Some("/srv/in\0")
  {
    CLengthWhole(baseDir);
    CLengthWhole(requested);
    assert !HasDotDot(CText(requested));
    var t := CText(baseDir) + CText(requested);
    assert t[..7] == "/srv/in" && Min(|t|, 7) == 7;
    assert JoinTruncated(baseDir, requested, 8) == "/srv/in" + [NUL];
    assert SanitizePath(baseDir, requested, 8).Some?;
    assert "/srv/in" + [NUL] == "/srv/in\0";
  }
}
