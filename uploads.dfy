/**
 * The multer configuration of the upload routes (index.js): which files the
 * `fileFilter` lets through and which folder `destination` picks.
 */
module Uploads {
  import opened Wrappers
  import opened JsText

  /** `path` without its trailing '/' characters. */
  function StripTrailingSlashes(p: string): (r: string)
    ensures |r| <= |p| && r == p[..|r|]
    ensures r == [] || r[|r| - 1] != '/'
    ensures forall k :: |r| <= k < |p| ==> p[k] == '/'
  {
    if |p| > 0 && p[|p| - 1] == '/' then StripTrailingSlashes(p[..|p| - 1]) else p
  }

  /** The part of `p` after its last '/'. */
  function LastSegment(p: string): (r: string)
    ensures |r| <= |p| && r == p[|p| - |r|..]
    ensures '/' !in r
    ensures |r| == |p| || p[|p| - |r| - 1] == '/'
  {
    if |p| > 0 && p[|p| - 1] != '/' then
      var r := LastSegment(p[..|p| - 1]);
      assert p[|p| - |r| - 1..] == p[..|p| - 1][|p| - 1 - |r|..] + [p[|p| - 1]];
      r + [p[|p| - 1]]
    else []
  }

  /** The index of the last '.' in `b`, or -1. */
  function LastDot(b: string): (d: int)
    ensures -1 <= d < |b|
    ensures d >= 0 ==> b[d] == '.'
    ensures forall k :: d < k < |b| ==> b[k] != '.'
  {
    if b == [] then -1 else if b[|b| - 1] == '.' then |b| - 1 else LastDot(b[..|b| - 1])
  }

  /**
   * Node's `path.extname` (POSIX): in the last segment of the path, ignoring
   * trailing slashes, the text from the last '.' on; "" when there is no '.',
   * when the only '.' opens the segment (".pdf"), and for "..".
   */
  function ExtName(p: string): (e: string)
    ensures e == [] || (e[0] == '.' && '/' !in e && forall k :: 0 < k < |e| ==> e[k] != '.')
    ensures var base := BaseName(p);
      e != [] <==> LastDot(base) > 0 && base != ".."
    ensures var base := BaseName(p);
      e != [] ==> e == base[LastDot(base)..]
  {
    SegmentExtension(BaseName(p))
  }

  /** The last segment of a path, trailing slashes ignored. */
  function BaseName(p: string): (base: string)
    ensures '/' !in base
  {
    LastSegment(StripTrailingSlashes(p))
  }

  /** The extension of one path segment. */
  function SegmentExtension(base: string): (e: string)
    requires '/' !in base
    ensures e == [] || (e[0] == '.' && '/' !in e && forall k :: 0 < k < |e| ==> e[k] != '.')
    ensures e != [] ==> LastDot(base) > 0 && e == base[LastDot(base)..]
    ensures LastDot(base) > 0 && base != ".." ==> e == base[LastDot(base)..] && e != []
  {
    var d := LastDot(base);
    if d <= 0 || base == ".." then "" else base[d..]
  }

  const AllowedExtensions: seq<string> := [".pdf", ".jpg", ".jpeg", ".png", ".doc", ".docx"]

  const RejectMessage := "Only PDF, images, and Word documents allowed!"

  /** What the filter passes to multer's callback: `cb(null, true)` or `cb(new Error(...))`. */
  datatype FilterDecision = Accept | Reject(message: string)

  /** multer's `fileFilter`: the lower-cased extension of the original name must be allowed. */
  function FileFilter(originalName: string): (v: FilterDecision)
    ensures v.Reject? ==> v.message == RejectMessage
    ensures v.Accept? ==> ExtName(originalName) != ""
  {
    if ToLowerAscii(ExtName(originalName)) in AllowedExtensions then Accept else Reject(RejectMessage)
  }

  /**
   * The last segment of the name (trailing slashes ignored) ends, in any
   * letter case, with one of the allowed extensions, and something precedes it.
   */
  ghost predicate EndsWithAllowedExtension(name: string) {
    var base := BaseName(name);
    exists i :: 0 <= i < |AllowedExtensions| && |AllowedExtensions[i]| < |base|
      && ToLowerAscii(base[|base| - |AllowedExtensions[i]|..]) == AllowedExtensions[i]
  }

  lemma LastDotAt(b: string, L: int)
    requires 0 <= L < |b| && b[L] == '.'
    requires forall k :: L < k < |b| ==> b[k] != '.'
    ensures LastDot(b) == L
  {
  }

  /** Each allowed extension is a '.' followed by at least three lower-case letters. */
  lemma AllowedExtensionShape(i: nat)
    requires i < |AllowedExtensions|
    ensures var e := AllowedExtensions[i];
      |e| >= 4 && e[0] == '.' && (forall k :: 0 < k < |e| ==> e[k] != '.' && e[k] != '/')
      && ToLowerAscii(e) == e
  {
  }

  lemma AllowedSuffixIsExtension(base: string, i: nat)
    requires '/' !in base && i < |AllowedExtensions|
    requires |AllowedExtensions[i]| < |base|
      && ToLowerAscii(base[|base| - |AllowedExtensions[i]|..]) == AllowedExtensions[i]
    ensures SegmentExtension(base) == base[|base| - |AllowedExtensions[i]|..]
  {
    var e := AllowedExtensions[i];
    AllowedExtensionShape(i);
    var L := |base| - |e|;
    var tail := base[L..];
    assert ToLowerAscii(tail)[0] == e[0];
    assert base[L] == tail[0] == '.';
    forall k | L < k < |base| ensures base[k] != '.' {
      assert ToLowerAscii(tail)[k - L] == e[k - L];
      assert base[k] == tail[k - L];
    }
    LastDotAt(base, L);
    assert base != "..";
  }

  lemma AllowedSuffixAccepted(name: string)
    requires EndsWithAllowedExtension(name)
    ensures FileFilter(name).Accept?
  {
    var base := BaseName(name);
    var i :| 0 <= i < |AllowedExtensions| && |AllowedExtensions[i]| < |base|
      && ToLowerAscii(base[|base| - |AllowedExtensions[i]|..]) == AllowedExtensions[i];
    var e := AllowedExtensions[i];
    AllowedSuffixIsExtension(base, i);
    assert ExtName(name) == base[|base| - |e|..];
    assert ToLowerAscii(ExtName(name)) == e;
    assert e in AllowedExtensions;
  }

  lemma AcceptedHasAllowedSuffix(name: string)
    requires FileFilter(name).Accept?
    ensures EndsWithAllowedExtension(name)
  {
    var base := BaseName(name);
    var ext := ExtName(name);
    var i :| 0 <= i < |AllowedExtensions| && AllowedExtensions[i] == ToLowerAscii(ext);
    assert base[|base| - |AllowedExtensions[i]|..] == ext;
  }

  /** The filter accepts exactly the names that end in an allowed extension, ignoring letter case. */
  lemma FileFilterAcceptsIff(name: string)
    ensures FileFilter(name).Accept? <==> EndsWithAllowedExtension(name)
  {
    if EndsWithAllowedExtension(name) {
      AllowedSuffixAccepted(name);
    }
    if FileFilter(name).Accept? {
      AcceptedHasAllowedSuffix(name);
    }
  }

  /** A name without '/' is its own last segment. */
  lemma BaseNameOfSegment(name: string)
    requires '/' !in name
    ensures BaseName(name) == name
  {
    assert name != [] ==> name[|name| - 1] != '/';
    assert StripTrailingSlashes(name) == name;
  }

  /** Any non-empty stem without '/' followed by an allowed extension passes the filter. */
  lemma FileFilterAcceptsStem(stem: string, i: nat)
    requires stem != [] && '/' !in stem && i < |AllowedExtensions|
    ensures FileFilter(stem + AllowedExtensions[i]) == Accept
  {
    var e := AllowedExtensions[i];
    var name := stem + e;
    AllowedExtensionShape(i);
    assert '/' !in e by {
      forall k | 0 <= k < |e| ensures e[k] != '/' {
        if k == 0 { assert e[0] == '.'; }
      }
    }
    BaseNameOfSegment(name);
    assert name[|name| - |e|..] == e;
    AllowedSuffixIsExtension(name, i);
    assert ExtName(name) == e;
    assert ToLowerAscii(e) in AllowedExtensions;
  }

  /** Case changes keep every '/', so the trailing slashes stripped are the same. */
  lemma {:induction false} StripTrailingSlashesCaseBlind(a: string, b: string)
    requires SameUpToCase(a, b)
    ensures |StripTrailingSlashes(a)| == |StripTrailingSlashes(b)|
  {
    if |a| > 0 {
      var n := |a| - 1;
      if a[n] == '/' || b[n] == '/' {
        assert SameCharUpToCase(a[n], b[n]);
        if a[n] == '/' { SameCharNonLetter(a[n], b[n]); } else { SameCharNonLetter(b[n], a[n]); }
        SameUpToCaseSlice(a, b, 0, n);
        StripTrailingSlashesCaseBlind(a[..n], b[..n]);
      }
    }
  }

  /** Case changes keep every '/', so the last segments have the same length. */
  lemma {:induction false} LastSegmentCaseBlind(a: string, b: string)
    requires SameUpToCase(a, b)
    ensures |LastSegment(a)| == |LastSegment(b)|
  {
    if |a| > 0 {
      var n := |a| - 1;
      assert SameCharUpToCase(a[n], b[n]);
      if a[n] == '/' { SameCharNonLetter(a[n], b[n]); }
      if b[n] == '/' { SameCharNonLetter(b[n], a[n]); }
      if a[n] != '/' {
        SameUpToCaseSlice(a, b, 0, n);
        LastSegmentCaseBlind(a[..n], b[..n]);
      }
    }
  }

  /** Case changes keep every '.', so the last dot is at the same index. */
  lemma {:induction false} LastDotCaseBlind(a: string, b: string)
    requires SameUpToCase(a, b)
    ensures LastDot(a) == LastDot(b)
  {
    if |a| > 0 {
      var n := |a| - 1;
      assert SameCharUpToCase(a[n], b[n]);
      if a[n] == '.' { SameCharNonLetter(a[n], b[n]); }
      if b[n] == '.' { SameCharNonLetter(b[n], a[n]); }
      if a[n] != '.' {
        SameUpToCaseSlice(a, b, 0, n);
        LastDotCaseBlind(a[..n], b[..n]);
      }
    }
  }

  /** Names that differ only in ASCII letter case have base names that differ only in case. */
  lemma BaseNameCaseBlind(a: string, b: string)
    requires SameUpToCase(a, b)
    ensures SameUpToCase(BaseName(a), BaseName(b))
  {
    StripTrailingSlashesCaseBlind(a, b);
    var sa, sb := StripTrailingSlashes(a), StripTrailingSlashes(b);
    SameUpToCaseSlice(a, b, 0, |sa|);
    assert sa == a[..|sa|] && sb == b[..|sa|];
    LastSegmentCaseBlind(sa, sb);
    var m := |LastSegment(sa)|;
    SameUpToCaseSlice(sa, sb, |sa| - m, |sa|);
  }

  /** ".." has no letters, so a name is ".." exactly when its case variant is. */
  lemma DotDotCaseBlind(a: string, b: string)
    requires SameUpToCase(a, b)
    ensures a == ".." <==> b == ".."
  {
    if |a| == 2 {
      assert SameCharUpToCase(a[0], b[0]) && SameCharUpToCase(a[1], b[1]);
      if a[0] == '.' { SameCharNonLetter(a[0], b[0]); }
      if b[0] == '.' { SameCharNonLetter(b[0], a[0]); }
      if a[1] == '.' { SameCharNonLetter(a[1], b[1]); }
      if b[1] == '.' { SameCharNonLetter(b[1], a[1]); }
    }
  }

  /** Base names that differ only in ASCII letter case have extensions that differ only in case. */
  lemma SegmentExtensionCaseBlind(a: string, b: string)
    requires '/' !in a && '/' !in b && SameUpToCase(a, b)
    ensures SameUpToCase(SegmentExtension(a), SegmentExtension(b))
  {
    LastDotCaseBlind(a, b);
    DotDotCaseBlind(a, b);
    var d := LastDot(a);
    if d > 0 && a != ".." {
      SameUpToCaseSlice(a, b, d, |a|);
    }
  }

  /** Names that differ only in ASCII letter case have extensions that differ only in case. */
  lemma ExtNameCaseBlind(a: string, b: string)
    requires SameUpToCase(a, b)
    ensures SameUpToCase(ExtName(a), ExtName(b))
  {
    BaseNameCaseBlind(a, b);
    SegmentExtensionCaseBlind(BaseName(a), BaseName(b));
  }

  /** The filter ignores ASCII letter case: names that differ only in case get the same decision. */
  lemma FileFilterCaseBlind(a: string, b: string)
    requires SameUpToCase(a, b)
    ensures FileFilter(a) == FileFilter(b)
  {
    ExtNameCaseBlind(a, b);
    ToLowerAsciiCaseBlind(ExtName(a), ExtName(b));
  }

  /** Form fields multer has parsed when it chooses the destination. */
  datatype UploadForm = UploadForm(fullName: Option<string>, phone: Option<string>, email: Option<string>)

  /**
   * multer's `destination` folder: "documents" for the student registration
   * form (full name, phone and e-mail all present and non-empty), "resumes"
   * for everything else.
   */
  function UploadFolder(body: UploadForm): (folder: string)
    ensures folder == "documents" || folder == "resumes"
    ensures folder == "documents" <==> Truthy(body.fullName) && Truthy(body.phone) && Truthy(body.email)
  {
    if Truthy(body.fullName) && Truthy(body.phone) && Truthy(body.email) then "documents" else "resumes"
  }
}
