/**
 The upload filename validator of app.py (`allowed_file`, app.py:18-20, and
 the allow-list `ALLOWED_EXTENSIONS`, app.py:12).

 A filename is accepted iff it contains a `.` and the text after the LAST `.`,
 lower-cased, is one of the allowed extensions. `str.rsplit('.', 1)` is
 modelled by `RSplitDot`, Python's `str.lower` by the ASCII-only `Lower`.
 */
module Upload {
  import opened Wrappers

  /** Extensions an uploaded image may carry, compared in lower case. */
  const AllowedExtensions: set<string> := {"png", "jpg", "jpeg", "gif"}

  /** ASCII lower-casing of one character; every other character is kept. */
  function LowerChar(c: char): char
  {
    if 'A' <= c <= 'Z' then (c as int - 'A' as int + 'a' as int) as char else c
  }

  /** Lower-cases a string character by character. */
  function Lower(s: string): (r: string)
    ensures |r| == |s|
    ensures forall i {:trigger r[i]} :: 0 <= i < |s| ==> r[i] == LowerChar(s[i])
  {
    seq(|s|, i requires 0 <= i < |s| => LowerChar(s[i]))
  }

  /** Index of the last `.` of `s`, or None when `s` has no `.`. */
  function LastDot(s: string): (r: Option<nat>)
    ensures r.None? <==> '.' !in s
    ensures r.Some? ==> r.value < |s| && s[r.value] == '.'
    ensures r.Some? ==> forall j :: r.value < j < |s| ==> s[j] != '.'
  {
    if |s| == 0 then None
    else if s[|s| - 1] == '.' then Some(|s| - 1)
    else LastDot(s[..|s| - 1])
  }

  /**
   `s.rsplit('.', 1)`: the whole string when it holds no `.`, otherwise the
   text before and the text after its last `.`.
   */
  function RSplitDot(s: string): (parts: seq<string>)
    ensures 1 <= |parts| <= 2
    ensures |parts| == 1 <==> '.' !in s
    ensures |parts| == 1 ==> parts[0] == s
    ensures |parts| == 2 ==> parts[0] + "." + parts[1] == s && '.' !in parts[1]
  {
    match LastDot(s)
    case None => [s]
    case Some(i) =>
      assert s[..i] + "." + s[i + 1..] == s by {
        assert s == s[..i] + [s[i]] + s[i + 1..];
      }
      [s[..i], s[i + 1..]]
  }

  /** `allowed_file`: the guarded index mirrors Python's short-circuit `and`. */
  predicate AllowedFile(filename: string)
    ensures AllowedFile(filename) ==> '.' in filename
    ensures AllowedFile(filename) ==> 3 <= |RSplitDot(filename)[1]| <= 4
  {
    '.' in filename && Lower(RSplitDot(filename)[1]) in AllowedExtensions
  }

  /** `t` is a suffix of `s`. */
  predicate IsSuffix(t: string, s: string)
  {
    |t| <= |s| && s[|s| - |t|..] == t
  }

  /**
   Reference reading of the validator: the lower-cased filename ends in a dot
   followed by an allowed extension.
   */
  ghost predicate EndsWithAllowedExtension(filename: string)
  {
    exists e :: e in AllowedExtensions && IsSuffix("." + e, Lower(filename))
  }

  lemma ExtensionsHaveNoDot(e: string)
    requires e in AllowedExtensions
    ensures '.' !in e
  {
  }

  /** Lower-casing commutes with taking a suffix. */
  lemma LowerSuffix(s: string, i: nat)
    requires i <= |s|
    ensures Lower(s[i..]) == Lower(s)[i..]
  {
    var a, b := Lower(s[i..]), Lower(s)[i..];
    forall j | 0 <= j < |a|
      ensures a[j] == b[j]
    {
      assert s[i..][j] == s[i + j];
    }
  }

  /** A lower-case string is its own lower-casing. */
  lemma LowerOfLowerCase(s: string)
    requires forall i :: 0 <= i < |s| ==> !('A' <= s[i] <= 'Z')
    ensures Lower(s) == s
  {
  }

  /** A dot with no dot after it is the last dot. */
  lemma LastDotUnique(s: string, i: nat)
    requires i < |s| && s[i] == '.'
    requires forall j :: i < j < |s| ==> s[j] != '.'
    ensures LastDot(s) == Some(i)
  {
  }

  /** After `p + "."`, a dot-free `e` is the extension `rsplit` finds, whatever `p`. */
  lemma {:induction false} ExtensionAfterLastDot(p: string, e: string)
    requires '.' !in e
    ensures '.' in p + "." + e
    ensures RSplitDot(p + "." + e)[1] == e
  {
    var f := p + "." + e;
    assert f[|p|] == '.';
    forall j | |p| < j < |f|
      ensures f[j] != '.'
    {
      assert f[j] == e[j - |p| - 1];
    }
    LastDotUnique(f, |p|);
    assert f[|p| + 1..] == e;
  }

  /** The lower-cased name ends in a dot and the lower-cased extension. */
  lemma {:induction false} LowerEndsWithExtension(f: string)
    requires '.' in f
    ensures IsSuffix("." + Lower(RSplitDot(f)[1]), Lower(f))
  {
    var lf := Lower(f);
    var i := LastDot(f).value;
    var ext := RSplitDot(f)[1];
    assert ext == f[i + 1..];
    LowerSuffix(f, i + 1);
    var t := "." + Lower(ext);
    assert lf[i..] == [lf[i]] + lf[i + 1..];
    assert lf[i..] == t;
    assert |lf| - |t| == i;
  }

  /** When the lower-cased name ends in a dot and a dot-free `e`, the extension lower-cases to `e`. */
  lemma {:induction false} ExtensionOfLowerSuffix(f: string, e: string)
    requires '.' !in e && IsSuffix("." + e, Lower(f))
    ensures '.' in f
    ensures Lower(RSplitDot(f)[1]) == e
  {
    var lf := Lower(f);
    var t := "." + e;
    var i := |f| - |e| - 1;
    assert |lf| - |t| == i;
    assert lf[i..] == t;
    assert f[i] == '.' by {
      assert lf[i] == t[0];
    }
    forall j | i < j < |f|
      ensures f[j] != '.'
    {
      assert lf[j] == t[j - i] == e[j - i - 1];
    }
    LastDotUnique(f, i);
    assert RSplitDot(f)[1] == f[i + 1..];
    LowerSuffix(f, i + 1);
    assert lf[i + 1..] == t[1..] == e;
  }

  /**
   Only the text after the last dot decides: `p + "." + e`, with `e` free of
   dots, is accepted iff `e` lower-cases to an allowed extension, whatever `p`.
   */
  lemma {:induction false} DotSuffixDecides(p: string, e: string)
    requires '.' !in e
    ensures AllowedFile(p + "." + e) <==> Lower(e) in AllowedExtensions
  {
    ExtensionAfterLastDot(p, e);
  }

  /** The validator agrees with its reference reading on every filename. */
  lemma {:induction false} AllowedFileIffSuffix(f: string)
    ensures AllowedFile(f) <==> EndsWithAllowedExtension(f)
  {
    if AllowedFile(f) {
      LowerEndsWithExtension(f);
      var e := Lower(RSplitDot(f)[1]);
      assert e in AllowedExtensions && IsSuffix("." + e, Lower(f));
    }
    if EndsWithAllowedExtension(f) {
      var e :| e in AllowedExtensions && IsSuffix("." + e, Lower(f));
      ExtensionsHaveNoDot(e);
      ExtensionOfLowerSuffix(f, e);
    }
  }

  /** A filename without a dot is refused. */
  lemma NoDotRejected(f: string)
    requires '.' !in f
    ensures !AllowedFile(f)
  {
  }

  /** A trailing dot leaves an empty extension, which is refused. */
  lemma {:induction false} TrailingDotRejected(p: string)
    ensures !AllowedFile(p + ".")
  {
    DotSuffixDecides(p, "");
    assert p + "." + "" == p + ".";
  }

  /** Every allowed extension is accepted after any prefix and a dot. */
  lemma {:induction false} AllowedExtensionAccepted(p: string, e: string)
    requires e in AllowedExtensions
    ensures AllowedFile(p + "." + e)
  {
    ExtensionsHaveNoDot(e);
    LowerOfLowerCase(e);
    DotSuffixDecides(p, e);
  }

  /** An allowed extension followed by `.exe` is refused: only the last one counts. */
  lemma {:induction false} DoubleExtensionRejected(p: string, e: string)
    ensures !AllowedFile(p + "." + e + ".exe")
  {
    LowerOfLowerCase("exe");
    DotSuffixDecides(p + "." + e, "exe");
    assert p + "." + e + "." + "exe" == p + "." + e + ".exe";
  }

  /** The check ignores ASCII letter case: names that lower-case alike are treated alike. */
  lemma {:induction false} CaseInsensitive(f: string, g: string)
    requires Lower(f) == Lower(g)
    ensures AllowedFile(f) <==> AllowedFile(g)
  {
    AllowedFileIffSuffix(f);
    AllowedFileIffSuffix(g);
  }
}
