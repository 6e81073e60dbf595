/** The optional value used wherever the C code passes or returns a pointer that may be NULL. */
module Options {
  datatype Option<+T> = None | Some(value: T)
}

/**
 * Character-level primitives shared by the converter and the two file servers.
 *
 * Text is a `seq<char>` standing for a NUL-terminated C string: `At` reads the
 * terminator at and past the end, so every look-ahead of the C code
 * (`text[pos + 1]`, `while (text[end]) ...`) has a direct counterpart here.
 * Classification follows the ASCII "C" locale.
 */
module Chars {
  import opened Options

  const NUL: char := '\0'

  /** `s[i]` inside the string, the NUL terminator everywhere else. */
  function At(s: seq<char>, i: int): char
  {
    if 0 <= i < |s| then s[i] else NUL
  }

  /** A string that is a valid C string: no NUL before its end. */
  predicate NoNul(s: seq<char>)
  {
    forall i :: 0 <= i < |s| ==> s[i] != NUL
  }

  /** `is_whitespace`: space, tab, newline and carriage return (marker.c:340). */
  predicate IsWhitespace(c: char)
  {
    c == ' ' || c == '\t' || c == '\n' || c == '\r'
  }

  /** `ispunct` in the C locale: the printable ASCII characters that are neither letters, digits nor space. */
  predicate IsPunct(c: char)
  {
    ('!' <= c <= '/') || (':' <= c <= '@') || ('[' <= c <= '`') || ('{' <= c <= '~')
  }

  /** `isdigit` in the C locale. */
  predicate IsDigit(c: char)
  {
    '0' <= c <= '9'
  }

  /** `tolower` in the C locale: only 'A'..'Z' change. */
  function Lower(c: char): char
  {
    if 'A' <= c <= 'Z' then (c as int + 32) as char else c
  }

  /** The ASCII case fold of a whole string. */
  function Fold(s: seq<char>): (r: seq<char>)
    ensures |r| == |s|
  {
    if s == [] then [] else [Lower(s[0])] + Fold(s[1..])
  }

  lemma {:induction false} FoldAt(s: seq<char>, i: nat)
    requires i < |s|
    ensures Fold(s)[i] == Lower(s[i])
  {
    if i > 0 {
      FoldAt(s[1..], i - 1);
    }
  }

  /**
   * `strcasecmp` (marker.c:32-42): walks both strings while neither has reached
   * its terminator, returns the difference of the first folded pair that differs,
   * and otherwise the difference of the folded characters where one string ended.
   */
  function CaseCompare(a: seq<char>, b: seq<char>): int
    decreases |a|
  {
    if At(a, 0) != NUL && At(b, 0) != NUL then
      if Lower(a[0]) != Lower(b[0]) then Lower(a[0]) as int - Lower(b[0]) as int
      else CaseCompare(a[1..], b[1..])
    else Lower(At(a, 0)) as int - Lower(At(b, 0)) as int
  }

  /** For C strings, `strcasecmp` answers 0 exactly when the two strings are equal after ASCII folding. */
  lemma {:induction false} CaseCompareZeroIff(a: seq<char>, b: seq<char>)
    requires NoNul(a) && NoNul(b)
    ensures CaseCompare(a, b) == 0 <==> Fold(a) == Fold(b)
    decreases |a|
  {
    if a == [] || b == [] {
      if a != [] {
        assert a[0] != NUL && Lower(a[0]) != NUL;
      }
      if b != [] {
        assert b[0] != NUL && Lower(b[0]) != NUL;
      }
    } else {
      assert Fold(a) == [Lower(a[0])] + Fold(a[1..]);
      assert Fold(b) == [Lower(b[0])] + Fold(b[1..]);
      if Lower(a[0]) != Lower(b[0]) {
        assert Fold(a)[0] != Fold(b)[0];
      } else {
        CaseCompareZeroIff(a[1..], b[1..]);
        if Fold(a) == Fold(b) {
          assert Fold(a)[1..] == Fold(a[1..]);
          assert Fold(b)[1..] == Fold(b[1..]);
        }
      }
    }
  }

  /** Folding ignores case: a string and its upper-case spelling compare equal. */
  lemma CaseCompareExample()
    ensures CaseCompare("HTML", "html") == 0
    ensures CaseCompare("html5", "html") != 0
  {
  }

  /** `strlen`: the number of characters before the terminator. */
  function CLength(s: seq<char>): (n: nat)
    ensures n <= |s| && At(s, n) == NUL
    ensures forall k :: 0 <= k < n ==> s[k] != NUL
  {
    var n := ScanTo(s, 0, NUL);
    assert forall k :: 0 <= k < n ==> s[k] == At(s, k);
    n
  }

  /** Regrouping a concatenation of three texts. */
  lemma SeqAssoc(a: seq<char>, b: seq<char>, c: seq<char>)
    ensures (a + b) + c == a + (b + c)
  {
  }

  /** A string without an embedded NUL is read back whole. */
  lemma CLengthWhole(s: seq<char>)
    requires NoNul(s)
    ensures CLength(s) == |s|
  {
  }

  /** `starts_with` (marker.c:364-368) on C strings: `prefix` is an initial segment of `s`. */
  predicate StartsWith(s: seq<char>, prefix: seq<char>)
  {
    prefix <= s
  }

  /** Index of the first `c` at or after `from`, or of the terminator if `c` does not occur before it. */
  function ScanTo(s: seq<char>, from: nat, c: char): (i: nat)
    ensures from <= i && (from <= |s| ==> i <= |s|)
    ensures At(s, i) == c || At(s, i) == NUL
    ensures forall k :: from <= k < i ==> At(s, k) != c && At(s, k) != NUL
    decreases |s| - from
  {
    if At(s, from) == c || At(s, from) == NUL then from else ScanTo(s, from + 1, c)
  }

  /** `ScanTo` answers the first position holding `c` or the terminator. */
  lemma {:induction false} ScanToFirst(s: seq<char>, from: nat, c: char, i: nat)
    requires from <= i && (At(s, i) == c || At(s, i) == NUL)
    requires forall k :: from <= k < i ==> At(s, k) != c && At(s, k) != NUL
    ensures ScanTo(s, from, c) == i
    decreases i - from
  {
    if from < i {
      ScanToFirst(s, from + 1, c, i);
    }
  }

  /** In a C string, a scan that stops short of `c` has reached the end: `c` does not occur from `from` on. */
  lemma ScanToMissing(s: seq<char>, from: nat, c: char)
    requires NoNul(s) && At(s, ScanTo(s, from, c)) != c
    ensures ScanTo(s, from, c) >= |s|
    ensures forall k :: from <= k < |s| ==> s[k] != c
  {
    forall k | from <= k < |s|
      ensures s[k] != c
    {
      assert At(s, k) == s[k];
    }
  }

  /** `strchr(s, c) != NULL` for a C string: `c` occurs before the terminator. */
  predicate HasChar(s: seq<char>, c: char)
  {
    c != NUL && At(s, ScanTo(s, 0, c)) == c
  }

  lemma {:induction false} HasCharIff(s: seq<char>, c: char)
    requires NoNul(s) && c != NUL
    ensures HasChar(s, c) <==> c in s
  {
    var i := ScanTo(s, 0, c);
    if c in s {
      var k :| 0 <= k < |s| && s[k] == c;
      assert At(s, k) == c;
      assert i <= k;
      assert i < |s|;
    }
  }

  /** `strrchr(s, c)`: the index of the last occurrence of `c`, if any. */
  function LastIndexOf(s: seq<char>, c: char): (r: Option<nat>)
    ensures r.Some? ==> r.value < |s| && s[r.value] == c
    ensures r.Some? ==> forall k :: r.value < k < |s| ==> s[k] != c
    ensures r.None? ==> forall k :: 0 <= k < |s| ==> s[k] != c
  {
    if s == [] then None
    else if s[|s| - 1] == c then Some(|s| - 1)
    else LastIndexOf(s[..|s| - 1], c)
  }

  /** The first position at or after `i` that does not hold whitespace (marker.c:349-355). */
  function SkipSpace(s: seq<char>, i: nat): (j: nat)
    requires i <= |s|
    ensures i <= j <= |s| && (j == |s| || !IsWhitespace(s[j]))
    ensures forall k :: i <= k < j ==> IsWhitespace(s[k])
    decreases |s| - i
  {
    if i < |s| && IsWhitespace(s[i]) then SkipSpace(s, i + 1) else i
  }

  /** The end left after stepping back over the whitespace before position `j` (marker.c:358-361). */
  function BackSpace(s: seq<char>, j: nat): (e: nat)
    requires j <= |s|
    ensures e <= j && (e == 0 || !IsWhitespace(s[e - 1]))
    ensures forall k :: e <= k < j ==> IsWhitespace(s[k])
  {
    if j > 0 && IsWhitespace(s[j - 1]) then BackSpace(s, j - 1) else j
  }

  /** Drops leading whitespace (first half of `trim_whitespace`). */
  function TrimLeft(s: seq<char>): seq<char>
  {
    s[SkipSpace(s, 0)..]
  }

  /** Drops trailing whitespace (second half of `trim_whitespace`). */
  function TrimRight(s: seq<char>): seq<char>
  {
    s[..BackSpace(s, |s|)]
  }

  /** `trim_whitespace` on the value of a C string. */
  function Trim(s: seq<char>): seq<char>
  {
    TrimRight(TrimLeft(s))
  }

  /** Text that neither starts nor ends with whitespace is left as it is. */
  lemma TrimUnchanged(s: seq<char>)
    requires s == [] || (!IsWhitespace(s[0]) && !IsWhitespace(s[|s| - 1]))
    ensures Trim(s) == s
  {
    assert SkipSpace(s, 0) == 0;
    assert s[0..] == s;
    assert BackSpace(s, |s|) == |s|;
  }

  /**
   * What trimming means: the result is the infix `s[i..j]` left after removing a
   * whitespace prefix and a whitespace suffix, and it neither starts nor ends
   * with whitespace.
   */
  lemma TrimIsInfix(s: seq<char>)
    ensures exists i, j :: (0 <= i <= j <= |s| && Trim(s) == s[i..j]
      && (forall k :: 0 <= k < i ==> IsWhitespace(s[k]))
      && (forall k :: j <= k < |s| ==> IsWhitespace(s[k])))
    ensures Trim(s) == [] || (!IsWhitespace(Trim(s)[0]) && !IsWhitespace(Trim(s)[|Trim(s)| - 1]))
  {
    var i := SkipSpace(s, 0);
    var l := s[i..];
    var e := BackSpace(l, |l|);
    var j := i + e;
    assert Trim(s) == s[i..j];
    forall k | j <= k < |s|
      ensures IsWhitespace(s[k])
    {
      assert s[k] == l[k - i];
    }
  }

  /**
   * `Trim` by its bounds: `s[i..j]` is the trimmed text when everything before
   * `i` and from `j` on is whitespace and the infix, when not empty, neither
   * starts nor ends with whitespace.
   */
  lemma TrimExact(s: seq<char>, i: nat, j: nat)
    requires i <= j <= |s|
    requires forall k :: 0 <= k < i ==> IsWhitespace(s[k])
    requires forall k :: j <= k < |s| ==> IsWhitespace(s[k])
    requires i < j ==> !IsWhitespace(s[i]) && !IsWhitespace(s[j - 1])
    ensures Trim(s) == s[i..j]
  {
    if i < j {
      var l := s[i..];
      assert SkipSpace(s, 0) == i;
      assert BackSpace(l, |l|) == j - i;
      assert l[..j - i] == s[i..j];
    } else {
      assert SkipSpace(s, 0) == |s|;
    }
  }

  /** Trimming only removes characters: a character absent from `s` is absent from its trimmed form. */
  lemma TrimKeepsAbsent(s: seq<char>, c: char)
    requires c !in s
    ensures c !in Trim(s)
  {
    TrimIsInfix(s);
    var i, j :| 0 <= i <= j <= |s| && Trim(s) == s[i..j];
    forall k | 0 <= k < |Trim(s)|
      ensures Trim(s)[k] != c
    {
      assert Trim(s)[k] == s[i + k];
    }
  }

  /** Trimming is idempotent. */
  lemma TrimIdempotent(s: seq<char>)
    ensures Trim(Trim(s)) == Trim(s)
  {
    TrimIsInfix(s);
    TrimUnchanged(Trim(s));
  }

  /** A string of whitespace only trims to the empty string. */
  lemma TrimAllWhitespace(s: seq<char>)
    requires forall k :: 0 <= k < |s| ==> IsWhitespace(s[k])
    ensures Trim(s) == []
  {
    TrimIsInfix(s);
  }
}
