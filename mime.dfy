/**
 * The extension-to-MIME lookups of the two static file servers:
 * `iris_get_mime_type` (iris/src/iris.c:19-42) and its older twin
 * `get_mime_type` (src/main.c:20-42). Both take the text from the last `.`
 * of the path and walk a constant table, comparing with `strcasecmp`; a path
 * without a dot, or an extension not in the table, gets the fallback type.
 */
module Mime {
  import opened Options
  import opened Chars

  /** One row of a table: an extension, with its dot, and the type it maps to. */
  datatype MimeEntry = MimeEntry(extension: seq<char>, mimeType: seq<char>)

  /** The type of the table's NULL sentinel row, returned whenever no row matches. */
  const Fallback: seq<char> := "application/octet-stream"

  /** The rows of the iris table, in order, without the sentinel. */
  const IrisTable: seq<MimeEntry> := [
    MimeEntry(".html", "text/html"),
    MimeEntry(".htm", "text/html"),
    MimeEntry(".css", "text/css"),
    MimeEntry(".js", "application/javascript"),
    MimeEntry(".json", "application/json"),
    MimeEntry(".png", "image/png"),
    MimeEntry(".jpg", "image/jpeg"),
    MimeEntry(".jpeg", "image/jpeg"),
    MimeEntry(".gif", "image/gif"),
    MimeEntry(".txt", "text/plain")
  ]

  /** The rows of the older server's own table, in order, without the sentinel. */
  const LegacyTable: seq<MimeEntry> := [
    MimeEntry(".html", "text/html"),
    MimeEntry(".htm", "text/html"),
    MimeEntry(".css", "text/css"),
    MimeEntry(".js", "application/javascript"),
    MimeEntry(".json", "application/json"),
    MimeEntry(".png", "image/png"),
    MimeEntry(".jpg", "image/jpeg"),
    MimeEntry(".jpeg", "image/jpeg"),
    MimeEntry(".gif", "image/gif"),
    MimeEntry(".txt", "text/plain")
  ]

  /** The walk over the rows from `i`: the type of the first row whose extension `strcasecmp` finds equal to `ext`. */
  function Lookup(table: seq<MimeEntry>, i: nat, ext: seq<char>): (m: Option<seq<char>>)
    ensures m.Some? ==> exists k :: i <= k < |table| && table[k].mimeType == m.value
    decreases |table| - i
  {
    if i >= |table| then None
    else if CaseCompare(ext, table[i].extension) == 0 then Some(table[i].mimeType)
    else Lookup(table, i + 1, ext)
  }

  /** `strrchr(path, '.')`: the extension is the rest of the path from its last dot, if it has one. */
  function Extension(path: seq<char>): (ext: Option<seq<char>>)
    ensures ext.Some? ==> |ext.value| > 0 && ext.value[0] == '.' && '.' !in ext.value[1..]
    ensures ext.None? <==> '.' !in path
  {
    match LastIndexOf(path, '.')
    case Some(i) => Some(path[i..])
    case None => None
  }

  /** The lookup of one server over its table, with the fallback when the path has no dot or no row matches. */
  function MimeTypeIn(table: seq<MimeEntry>, path: seq<char>): (m: seq<char>)
    ensures m == Fallback || exists k :: 0 <= k < |table| && table[k].mimeType == m
  {
    match Extension(path)
    case None => Fallback
    case Some(ext) =>
      match Lookup(table, 0, ext)
      case Some(t) => t
      case None => Fallback
  }

  /** `iris_get_mime_type`. */
  function IrisMimeType(path: seq<char>): (m: seq<char>)
    ensures m == Fallback || exists k :: 0 <= k < |IrisTable| && IrisTable[k].mimeType == m
  {
    MimeTypeIn(IrisTable, path)
  }

  /** `get_mime_type` of the older server. */
  function LegacyMimeType(path: seq<char>): (m: seq<char>)
    ensures m == Fallback || exists k :: 0 <= k < |LegacyTable| && LegacyTable[k].mimeType == m
  {
    MimeTypeIn(LegacyTable, path)
  }

  /** Every row of both tables is a C string. */
  predicate CleanTable(table: seq<MimeEntry>)
  {
    forall k :: 0 <= k < |table| ==> NoNul(table[k].extension)
  }

  /**
   * The walk answers the type of the first row whose extension equals `ext`
   * up to ASCII case, and nothing when no row does.
   */
  lemma LookupFirstMatch(table: seq<MimeEntry>, i: nat, ext: seq<char>)
    requires NoNul(ext) && CleanTable(table)
    ensures Lookup(table, i, ext).None? <==> forall k :: i <= k < |table| ==> Fold(table[k].extension) != Fold(ext)
    ensures Lookup(table, i, ext).Some? ==>
      exists k :: (i <= k < |table|
        && Fold(table[k].extension) == Fold(ext) && Lookup(table, i, ext).value == table[k].mimeType
        && forall j :: i <= j < k ==> Fold(table[j].extension) != Fold(ext))
  {
    LookupMiss(table, i, ext);
    if Lookup(table, i, ext).Some? {
      var k := LookupHitIndex(table, i, ext);
    }
  }

  /** The walk from `i` finds nothing exactly when no row from `i` on has the extension's fold. */
  lemma {:induction false} LookupMiss(table: seq<MimeEntry>, i: nat, ext: seq<char>)
    requires NoNul(ext) && CleanTable(table)
    ensures Lookup(table, i, ext).None? <==> forall k :: i <= k < |table| ==> Fold(table[k].extension) != Fold(ext)
    decreases |table| - i
  {
    if i < |table| {
      CaseCompareZeroIff(ext, table[i].extension);
      if CaseCompare(ext, table[i].extension) != 0 {
        LookupMiss(table, i + 1, ext);
      }
    }
  }

  /** A walk from `i` that answers names the first matching row from `i` on. */
  lemma {:induction false} LookupHitIndex(table: seq<MimeEntry>, i: nat, ext: seq<char>) returns (k: nat)
    requires NoNul(ext) && CleanTable(table) && Lookup(table, i, ext).Some?
    ensures i <= k < |table| && Fold(table[k].extension) == Fold(ext) && Lookup(table, i, ext).value == table[k].mimeType
    ensures forall j :: i <= j < k ==> Fold(table[j].extension) != Fold(ext)
    decreases |table| - i
  {
    CaseCompareZeroIff(ext, table[i].extension);
    if CaseCompare(ext, table[i].extension) == 0 {
      k := i;
    } else {
      k := LookupHitIndex(table, i + 1, ext);
    }
  }

  /** Two paths that differ only in ASCII case get the same type: the comparison ignores case. */
  lemma IrisMimeTypeIgnoresCase(p: seq<char>, q: seq<char>)
    requires NoNul(p) && NoNul(q) && Fold(p) == Fold(q)
    ensures IrisMimeType(p) == IrisMimeType(q)
  {
    FoldKeepsDots(p, q);
    match LastIndexOf(p, '.')
    case None =>
    case Some(i) =>
      var a, b := p[i..], q[i..];
      assert Fold(a) == Fold(b) by {
        FoldSuffix(p, q, i);
      }
      assert NoNul(a) && NoNul(b);
      assert CleanTable(IrisTable);
      LookupSameFold(IrisTable, 0, a, b);
  }

  /** Folding keeps dots where they are, so two paths with the same fold have their last dot at the same place. */
  lemma FoldKeepsDots(p: seq<char>, q: seq<char>)
    requires Fold(p) == Fold(q)
    ensures LastIndexOf(p, '.') == LastIndexOf(q, '.')
  {
    assert |p| == |q|;
    forall k | 0 <= k < |p|
      ensures p[k] == '.' <==> q[k] == '.'
    {
      FoldAt(p, k);
      FoldAt(q, k);
    }
    LastIndexOfSameDots(p, q);
  }

  /** `strrchr` answers the same for two strings of the same length with dots in the same places. */
  lemma {:induction false} LastIndexOfSameDots(p: seq<char>, q: seq<char>)
    requires |p| == |q| && forall k :: 0 <= k < |p| ==> (p[k] == '.' <==> q[k] == '.')
    ensures LastIndexOf(p, '.') == LastIndexOf(q, '.')
    decreases |p|
  {
    if p != [] && p[|p| - 1] != '.' {
      LastIndexOfSameDots(p[..|p| - 1], q[..|q| - 1]);
    }
  }

  /** Suffixes of strings with the same fold have the same fold. */
  lemma FoldSuffix(p: seq<char>, q: seq<char>, i: nat)
    requires Fold(p) == Fold(q) && i <= |p|
    ensures Fold(p[i..]) == Fold(q[i..])
  {
    FoldDrop(p, i);
    FoldDrop(q, i);
  }

  /** Folding commutes with dropping a prefix. */
  lemma {:induction false} FoldDrop(s: seq<char>, i: nat)
    requires i <= |s|
    ensures Fold(s[i..]) == Fold(s)[i..]
    decreases i
  {
    if i > 0 {
      FoldDrop(s[1..], i - 1);
      assert s[1..][i - 1..] == s[i..];
      assert Fold(s)[1..] == Fold(s[1..]);
    }
  }

  /** The walk cannot tell apart two extensions with the same fold. */
  lemma {:induction false} LookupSameFold(table: seq<MimeEntry>, i: nat, a: seq<char>, b: seq<char>)
    requires NoNul(a) && NoNul(b) && Fold(a) == Fold(b) && CleanTable(table)
    ensures Lookup(table, i, a) == Lookup(table, i, b)
    decreases |table| - i
  {
    if i < |table| {
      CaseCompareZeroIff(a, table[i].extension);
      CaseCompareZeroIff(b, table[i].extension);
      LookupSameFold(table, i + 1, a, b);
    }
  }

  /** The older server's table has the same rows in the same order, so both servers agree on every path. */
  lemma ServersAgree(path: seq<char>)
    ensures LegacyMimeType(path) == IrisMimeType(path)
  {
    assert LegacyTable == IrisTable;
  }

  /** A path without a dot gets the fallback type. */
  lemma NoDotFallback(path: seq<char>)
    requires '.' !in path
    ensures IrisMimeType(path) == Fallback
  {
  }

  /** `strrchr` finds a dot followed by no other dot. */
  lemma {:induction false} LastDotAt(path: seq<char>, i: nat)
    requires i < |path| && path[i] == '.' && forall k :: i < k < |path| ==> path[k] != '.'
    ensures Extension(path) == Some(path[i..])
    decreases |path|
  {
    LastIndexOfAt(path, i);
  }

  lemma {:induction false} LastIndexOfAt(s: seq<char>, i: nat)
    requires i < |s| && s[i] == '.' && forall k :: i < k < |s| ==> s[k] != '.'
    ensures LastIndexOf(s, '.') == Some(i)
    decreases |s|
  {
    if s[|s| - 1] != '.' {
      LastIndexOfAt(s[..|s| - 1], i);
    }
  }

  /** The walk stops at a row that matches when no earlier row does. */
  lemma LookupHit(table: seq<MimeEntry>, ext: seq<char>, k: nat)
    requires NoNul(ext) && CleanTable(table) && k < |table|
    requires Fold(table[k].extension) == Fold(ext)
    requires forall j :: 0 <= j < k ==> Fold(table[j].extension) != Fold(ext)
    ensures Lookup(table, 0, ext) == Some(table[k].mimeType)
  {
    LookupHitFrom(table, ext, 0, k);
  }

  lemma {:induction false} LookupHitFrom(table: seq<MimeEntry>, ext: seq<char>, i: nat, k: nat)
    requires NoNul(ext) && CleanTable(table) && i <= k < |table|
    requires Fold(table[k].extension) == Fold(ext)
    requires forall j :: i <= j < k ==> Fold(table[j].extension) != Fold(ext)
    ensures Lookup(table, i, ext) == Some(table[k].mimeType)
    decreases k - i
  {
    CaseCompareZeroIff(ext, table[i].extension);
    if i < k {
      LookupHitFrom(table, ext, i + 1, k);
    }
  }

  /** Strings whose characters fold pairwise alike have the same fold. */
  lemma FoldAlike(a: seq<char>, b: seq<char>)
    requires |a| == |b| && forall i :: 0 <= i < |a| ==> Lower(a[i]) == Lower(b[i])
    ensures Fold(a) == Fold(b)
  {
    forall i | 0 <= i < |a|
      ensures Fold(a)[i] == Fold(b)[i]
    {
      FoldAt(a, i);
      FoldAt(b, i);
    }
  }

  /** Every extension of the table is a C string of three to five characters. */
  lemma IrisRows()
    ensures CleanTable(IrisTable)
    ensures forall k :: 0 <= k < |IrisTable| ==> 3 <= |IrisTable[k].extension| <= 5
  {
  }

  /** The type of a path whose last dot is at `i` is the walk's answer for `path[i..]`. */
  lemma MimeTypeAt(table: seq<MimeEntry>, path: seq<char>, i: nat)
    requires i < |path| && path[i] == '.' && forall k :: i < k < |path| ==> path[k] != '.'
    ensures Lookup(table, 0, path[i..]).Some? ==> MimeTypeIn(table, path) == Lookup(table, 0, path[i..]).value
    ensures Lookup(table, 0, path[i..]).None? ==> MimeTypeIn(table, path) == Fallback
  {
    LastDotAt(path, i);
  }

  /**
   * The walk stops at row `k` when that row folds alike with `ext` character by
   * character and every earlier row differs from it in length or in its second
   * character.
   */
  lemma HitAt(table: seq<MimeEntry>, ext: seq<char>, k: nat)
    requires NoNul(ext) && CleanTable(table) && k < |table| && |ext| > 1
    requires |table[k].extension| == |ext|
    requires forall i :: 0 <= i < |ext| ==> Lower(table[k].extension[i]) == Lower(ext[i])
    requires forall j :: 0 <= j < k ==>
      |table[j].extension| != |ext| || Lower(table[j].extension[1]) != Lower(ext[1])
    ensures Lookup(table, 0, ext) == Some(table[k].mimeType)
  {
    FoldAlike(table[k].extension, ext);
    FoldAt(ext, 1);
    forall j | 0 <= j < k
      ensures Fold(table[j].extension) != Fold(ext)
    {
      if |table[j].extension| == |ext| {
        FoldAt(table[j].extension, 1);
      }
    }
    LookupHit(table, ext, k);
  }

  /** The walk finds nothing for an extension whose length no row has. */
  lemma MissByLength(table: seq<MimeEntry>, ext: seq<char>)
    requires NoNul(ext) && CleanTable(table)
    requires forall j :: 0 <= j < |table| ==> |table[j].extension| != |ext|
    ensures Lookup(table, 0, ext) == None
  {
    LookupFirstMatch(table, 0, ext);
  }

  /** Every row of the table has three to five characters, so an extension of any other length gets the fallback. */
  lemma IrisMissByLength(path: seq<char>, i: nat)
    requires NoNul(path) && i < |path| && path[i] == '.' && forall k :: i < k < |path| ==> path[k] != '.'
    requires |path| - i < 3 || |path| - i > 5
    ensures IrisMimeType(path) == Fallback
  {
    IrisRows();
    assert NoNul(path[i..]);
    MissByLength(IrisTable, path[i..]);
    MimeTypeAt(IrisTable, path, i);
  }

  /** The case of the extension does not matter: `index.HTML` is served as HTML. */
  lemma UpperCaseExample(path: seq<char>)
    requires path == "index.HTML"
    ensures IrisMimeType(path) == "text/html"
  {
    MimeTypeAt(IrisTable, path, 5);
    UpperHtmlHit(path[5..]);
  }

  /** `.HTML` stops the walk at the first row. */
  lemma UpperHtmlHit(ext: seq<char>)
    requires ext == ".HTML"
    ensures Lookup(IrisTable, 0, ext) == Some("text/html")
  {
    IrisRows();
    var row := IrisTable[0].extension;
    assert row == ".html";
    forall i | 0 <= i < |ext|
      ensures Lower(row[i]) == Lower(ext[i])
    {
      assert i == 0 || i == 1 || i == 2 || i == 3 || i == 4;
    }
    HitAt(IrisTable, ext, 0);
  }

  /** An extension must match a row whole: `.html5`, longer than every row, is not `.html`. */
  lemma LongerExtensionExample(path: seq<char>)
    requires path == "page.html5"
    ensures IrisMimeType(path) == Fallback
  {
    IrisMissByLength(path, 4);
  }

  /** Only the last dot counts, even when it belongs to a directory name: `a.d/file` gets the fallback. */
  lemma DirectoryDotExample(path: seq<char>)
    requires path == "a.d/file"
    ensures IrisMimeType(path) == Fallback
  {
    IrisMissByLength(path, 1);
  }

  /** Of several dots the last one decides: `style.css.html` is HTML, not a stylesheet. */
  lemma LastDotExample(path: seq<char>)
    requires path == "style.css.html"
    ensures IrisMimeType(path) == "text/html"
  {
    MimeTypeAt(IrisTable, path, 9);
    IrisRows();
    HitAt(IrisTable, path[9..], 0);
  }
}
