/**
 * Python's `os.path.splitext` on POSIX paths: the extension is taken from the
 * final path component, starting at its last dot, unless only dots precede
 * that dot within the component.
 */
module Paths {

  /** Index of the last occurrence of `c` in `s`, or -1 when there is none
      (Python's `str.rfind`). */
  function RFind(s: string, c: char): (r: int)
    ensures -1 <= r < |s|
    ensures r >= 0 ==> s[r] == c
    ensures forall j :: r < j < |s| ==> s[j] != c
  {
    if |s| == 0 then -1
    else if s[|s| - 1] == c then |s| - 1
    else RFind(s[..|s| - 1], c)
  }

  predicate OnlyDots(s: string) {
    forall i :: 0 <= i < |s| ==> s[i] == '.'
  }

  /** `os.path.splitext(p)`: a root and an extension that together give back
      `p`. Where the extension starts is stated by ExtensionSound and
      ExtensionComplete below. */
  function SplitExt(p: string): (parts: (string, string))
    ensures parts.0 + parts.1 == p
  {
    var sepIndex := RFind(p, '/');
    var dotIndex := RFind(p, '.');
    if dotIndex > sepIndex && !OnlyDots(p[sepIndex + 1..dotIndex]) then
      (p[..dotIndex], p[dotIndex..])
    else
      (p, "")
  }

  function Extension(p: string): string {
    SplitExt(p).1
  }

  /** The final path component has a character other than a dot somewhere
      before index `k`. */
  ghost predicate HasStem(p: string, k: int) {
    exists j :: 0 <= j < k <= |p| && p[j] != '.' && NoSlashFrom(p, j, k)
  }

  predicate NoSlashFrom(p: string, j: int, k: int)
    requires 0 <= j <= k <= |p|
  {
    forall m :: j <= m < k ==> p[m] != '/'
  }

  /** `k` is where an extension starts in `p`: the last dot, in the final path
      component, preceded there by something other than dots. */
  ghost predicate ExtStart(p: string, k: int) {
    && 0 <= k < |p|
    && p[k] == '.'
    && (forall i :: k < i < |p| ==> p[i] != '.' && p[i] != '/')
    && HasStem(p, k)
  }

  /** A non-empty extension always starts at an extension start. */
  lemma ExtensionSound(p: string)
    ensures Extension(p) != "" ==> ExtStart(p, |p| - |Extension(p)|)
  {
    var sepIndex := RFind(p, '/');
    var dotIndex := RFind(p, '.');
    if dotIndex > sepIndex && !OnlyDots(p[sepIndex + 1..dotIndex]) {
      StemAfterLastSlash(p, sepIndex, dotIndex);
      assert Extension(p) == p[dotIndex..];
    }
  }

  /** A character other than a dot between the last slash and `k` is a stem. */
  lemma StemAfterLastSlash(p: string, sepIndex: int, k: int)
    requires -1 <= sepIndex < k <= |p|
    requires forall m :: sepIndex < m < |p| ==> p[m] != '/'
    requires !OnlyDots(p[sepIndex + 1..k])
    ensures HasStem(p, k)
  {
    var stem := p[sepIndex + 1..k];
    var i :| 0 <= i < |stem| && stem[i] != '.';
    var j := sepIndex + 1 + i;
    assert p[j] == stem[i];
    assert NoSlashFrom(p, j, k);
  }

  /** `RFind` finds the occurrence after which `c` no longer appears. */
  lemma RFindAt(s: string, c: char, k: int)
    requires 0 <= k < |s| && s[k] == c
    requires forall i :: k < i < |s| ==> s[i] != c
    ensures RFind(s, c) == k
  {
  }

  /** `RFind` lands before any stretch free of `c` that runs to the end. */
  lemma RFindBefore(s: string, c: char, j: int)
    requires 0 <= j <= |s|
    requires forall i :: j <= i < |s| ==> s[i] != c
    ensures RFind(s, c) < j
  {
  }

  /** Conversely, wherever an extension start exists, splitext cuts there. */
  lemma ExtensionComplete(p: string, k: int)
    requires ExtStart(p, k)
    ensures SplitExt(p) == (p[..k], p[k..])
  {
    RFindAt(p, '.', k);
    var j :| 0 <= j < k <= |p| && p[j] != '.' && NoSlashFrom(p, j, k);
    RFindBefore(p, '/', j);
    var sepIndex := RFind(p, '/');
    var stem := p[sepIndex + 1..k];
    assert stem[j - sepIndex - 1] == p[j];
    assert !OnlyDots(stem);
    assert k > sepIndex;
    assert SplitExt(p).0 == p[..k];
  }

  /** The extension, when present, is unique: at most one extension start. */
  lemma ExtStartUnique(p: string, k: int, k': int)
    requires ExtStart(p, k) && ExtStart(p, k')
    ensures k == k'
  {
  }

  /** `"Report.PDF"` has the extension `".PDF"`. */
  lemma ExtensionOfMixedCaseName()
    ensures Extension("Report.PDF") == ".PDF"
  {
    var p := "Report.PDF";
    assert ExtStart(p, 6) by {
      assert p[0] != '.' && NoSlashFrom(p, 0, 6);
    }
    ExtensionComplete(p, 6);
  }

  /** Only the last dot starts the extension. */
  lemma ExtensionOfDoubleSuffix()
    ensures Extension("archive.tar.gz") == ".gz"
  {
    var a := "archive.tar.gz";
    assert ExtStart(a, 11) by {
      assert a[0] != '.' && NoSlashFrom(a, 0, 11);
    }
    ExtensionComplete(a, 11);
  }

  /** A final component made of leading dots and then a dot-free suffix, like
      `".pdf"` or `"..pdf"`, has no extension. */
  lemma NoExtensionAfterOnlyDots(p: string, d: int)
    requires 0 < d <= |p| && OnlyDots(p[..d])
    requires forall i :: d <= i < |p| ==> p[i] != '.' && p[i] != '/'
    ensures Extension(p) == ""
  {
    ExtensionSound(p);
    if Extension(p) != "" {
      var k := |p| - |Extension(p)|;
      assert false;
    }
  }

  lemma HiddenFileExamples()
    ensures Extension(".pdf") == ""
    ensures Extension("..pdf") == ""
  {
    NoExtensionAfterOnlyDots(".pdf", 1);
    NoExtensionAfterOnlyDots("..pdf", 2);
  }
}
