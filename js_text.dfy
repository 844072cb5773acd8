/**
 * The JavaScript string primitives the portal relies on:
 * `String.prototype.trim`, `parseInt` (no radix) and lower-casing.
 */
module JsText {
  import opened Wrappers

  /** The white-space code points from U+00A0 up: NBSP, OGHAM SPACE MARK, the U+2000 block, LS, PS, NNBSP, MMSP, IDEOGRAPHIC SPACE and the BOM. */
  const WideSpaces: seq<char> := [
    '\U{00A0}', '\U{1680}',
    '\U{2000}', '\U{2001}', '\U{2002}', '\U{2003}', '\U{2004}', '\U{2005}',
    '\U{2006}', '\U{2007}', '\U{2008}', '\U{2009}', '\U{200A}',
    '\U{2028}', '\U{2029}', '\U{202F}', '\U{205F}', '\U{3000}', '\U{FEFF}'
  ]

  predicate Listed(c: char, cs: seq<char>) {
    cs != [] && (cs[0] == c || Listed(c, cs[1..]))
  }

  /**
   * ECMAScript WhiteSpace and LineTerminator code points, the set `trim`
   * strips: space, TAB through CR, and `WideSpaces`.
   */
  predicate IsSpace(c: char) {
    c == ' ' || ('\t' <= c <= '\r') || ('\U{00A0}' <= c && Listed(c, WideSpaces))
  }

  /** JavaScript truthiness of an optional string: present and non-empty. */
  predicate Truthy(f: Option<string>) {
    f.Some? && f.value != ""
  }

  predicate AllSpace(s: string) {
    forall k :: 0 <= k < |s| ==> IsSpace(s[k])
  }

  /** Drops leading white space: the result is a suffix of `s` that does not start with white space. */
  function TrimStart(s: string): (r: string)
    ensures |r| <= |s| && r == s[|s| - |r|..]
    ensures r == [] || !IsSpace(r[0])
  {
    if |s| > 0 && IsSpace(s[0]) then TrimStart(s[1..]) else s
  }

  /** What `TrimStart` drops is all white space. */
  lemma {:induction false} TrimStartDropsSpace(s: string)
    ensures AllSpace(s[..|s| - |TrimStart(s)|])
  {
    if |s| > 0 && IsSpace(s[0]) {
      TrimStartDropsSpace(s[1..]);
      var n := |s| - |TrimStart(s)|;
      assert s[..n] == [s[0]] + s[1..][..n - 1];
    }
  }

  /** Drops trailing white space: the result is a prefix of `s` that does not end with white space. */
  function TrimEnd(s: string): (r: string)
    ensures |r| <= |s| && r == s[..|r|]
    ensures r == [] || !IsSpace(r[|r| - 1])
  {
    if |s| > 0 && IsSpace(s[|s| - 1]) then TrimEnd(s[..|s| - 1]) else s
  }

  /** What `TrimEnd` drops is all white space. */
  lemma {:induction false} TrimEndDropsSpace(s: string)
    ensures AllSpace(s[|TrimEnd(s)|..])
  {
    if |s| > 0 && IsSpace(s[|s| - 1]) {
      var init := s[..|s| - 1];
      TrimEndDropsSpace(init);
      var r := TrimEnd(s);
      assert s[|r|..] == init[|r|..] + [s[|s| - 1]];
    }
  }

  /** `s.trim()`. */
  function Trim(s: string): (r: string)
    ensures |r| <= |s|
    ensures r == [] || (!IsSpace(r[0]) && !IsSpace(r[|r| - 1]))
  {
    var t := TrimStart(s);
    var r := TrimEnd(t);
    assert r != [] ==> r[0] == t[0];
    r
  }

  /** A string trims to nothing exactly when it is all white space. */
  lemma TrimEmptyIff(s: string)
    ensures Trim(s) == [] <==> AllSpace(s)
  {
    var t := TrimStart(s);
    if AllSpace(s) {
      TrimStartSkips(s, []);
      assert s + [] == s;
    }
    if Trim(s) == [] {
      TrimStartDropsSpace(s);
      TrimEndDropsSpace(t);
      assert t[0..] == t;
      var n := |s| - |t|;
      forall k | 0 <= k < |s|
        ensures IsSpace(s[k])
      {
        if k < n {
          assert s[k] == s[..n][k];
        } else {
          assert s[k] == t[k - n];
        }
      }
    }
  }

  lemma {:induction false} TrimStartSkips(p: string, t: string)
    requires AllSpace(p)
    ensures TrimStart(p + t) == TrimStart(t)
  {
    if p != [] {
      assert (p + t)[0] == p[0] && (p + t)[1..] == p[1..] + t;
      assert IsSpace(p[0]) && AllSpace(p[1..]);
      TrimStartSkips(p[1..], t);
      calc {
        TrimStart(p + t);
        TrimStart((p + t)[1..]);
        TrimStart(p[1..] + t);
      }
    } else {
      assert p + t == t;
    }
  }

  lemma {:induction false} TrimEndSkips(t: string, q: string)
    requires AllSpace(q)
    ensures TrimEnd(t + q) == TrimEnd(t)
  {
    if q != [] {
      assert (t + q)[|t + q| - 1] == q[|q| - 1] && (t + q)[..|t + q| - 1] == t + q[..|q| - 1];
      assert IsSpace(q[|q| - 1]) && AllSpace(q[..|q| - 1]);
      TrimEndSkips(t, q[..|q| - 1]);
      calc {
        TrimEnd(t + q);
        TrimEnd((t + q)[..|t + q| - 1]);
        TrimEnd(t + q[..|q| - 1]);
      }
    } else {
      assert t + q == t;
    }
  }

  lemma {:induction false} TrimStartAppend(s: string, q: string)
    requires AllSpace(q)
    ensures TrimStart(s + q) == if TrimStart(s) == [] then [] else TrimStart(s) + q
  {
    if s == [] {
      assert s + q == q;
      TrimStartSkips(q, []);
      assert q + [] == q;
    } else if IsSpace(s[0]) {
      assert (s + q)[1..] == s[1..] + q;
      TrimStartAppend(s[1..], q);
    }
  }

  /**
   * Surrounding white space does not change the trimmed form: two subject
   * strings that differ only in leading or trailing white space trim alike.
   */
  lemma {:induction false} TrimIgnoresPadding(p: string, s: string, q: string)
    requires AllSpace(p) && AllSpace(q)
    ensures Trim(p + s + q) == Trim(s)
  {
    assert p + s + q == p + (s + q);
    TrimStartSkips(p, s + q);
    TrimStartAppend(s, q);
    if TrimStart(s) != [] {
      TrimEndSkips(TrimStart(s), q);
    }
  }

  /** Trimming twice is trimming once. */
  lemma TrimIdempotent(s: string)
    ensures Trim(Trim(s)) == Trim(s)
  {
  }

  predicate IsDigit(c: char) { '0' <= c <= '9' }

  predicate IsHexDigit(c: char) { IsDigit(c) || 'a' <= c <= 'f' || 'A' <= c <= 'F' }

  function HexValue(c: char): nat
    requires IsHexDigit(c)
  {
    if IsDigit(c) then c as nat - '0' as nat
    else if 'a' <= c <= 'f' then c as nat - 'a' as nat + 10
    else c as nat - 'A' as nat + 10
  }

  /** The longest prefix of `s` made of digits of the radix (10 or 16). */
  function LeadingDigits(s: string, hex: bool): (r: string)
    ensures |r| <= |s| && r == s[..|r|]
    ensures forall k :: 0 <= k < |r| ==> (if hex then IsHexDigit(r[k]) else IsDigit(r[k]))
    ensures |r| == |s| || !(if hex then IsHexDigit(s[|r|]) else IsDigit(s[|r|]))
  {
    if |s| > 0 && (if hex then IsHexDigit(s[0]) else IsDigit(s[0])) then [s[0]] + LeadingDigits(s[1..], hex) else []
  }

  /** The value of a digit string in the radix, most significant digit first. */
  function DigitsValue(ds: string, hex: bool): nat
    requires forall k :: 0 <= k < |ds| ==> IsHexDigit(ds[k])
  {
    if ds == [] then 0
    else DigitsValue(ds[..|ds| - 1], hex) * (if hex then 16 else 10) + HexValue(ds[|ds| - 1])
  }

  /**
   * `parseInt(s)` with no radix: leading white space is skipped, an optional
   * sign is read, a `0x`/`0X` prefix selects radix 16, and the longest run of
   * digits that follows is the magnitude. `None` stands for `NaN` (no digits).
   */
  function ParseInt(s: string): (r: Option<int>)
  {
    ParseSigned(TrimStart(s))
  }

  /** `parseInt` once the leading white space is gone: an optional sign, then the magnitude. */
  function ParseSigned(t: string): (r: Option<int>)
  {
    var negative := |t| > 0 && t[0] == '-';
    var body := if |t| > 0 && (t[0] == '-' || t[0] == '+') then t[1..] else t;
    match ParseMagnitude(body)
    case None => None
    case Some(m) => Some(if negative then -(m as int) else m as int)
  }

  /** The magnitude after the sign: a `0x`/`0X` prefix selects radix 16; `None` when no digit follows. */
  function ParseMagnitude(body: string): (r: Option<nat>)
  {
    var hex := |body| >= 2 && body[0] == '0' && (body[1] == 'x' || body[1] == 'X');
    var ds := LeadingDigits(if hex then body[2..] else body, hex);
    if ds == [] then None else Some(DigitsValue(ds, hex))
  }

  /** The decimal numeral of `n`, as `String(n)` writes it. */
  function DecimalString(n: nat): (r: string)
    ensures |r| > 0 && forall k :: 0 <= k < |r| ==> IsDigit(r[k])
    ensures r[0] == '0' ==> n == 0
  {
    var d := ['0' + (n % 10) as char];
    if n < 10 then d else DecimalString(n / 10) + d
  }

  lemma {:induction false} DecimalStringValue(n: nat)
    ensures DigitsValue(DecimalString(n), false) == n
  {
    var r := DecimalString(n);
    if n >= 10 {
      DecimalStringValue(n / 10);
      assert r[..|r| - 1] == DecimalString(n / 10);
    }
  }

  /**
   * Round trip: `parseInt` reads back every decimal numeral, with or without
   * a minus sign, so a student code written as digits parses to its number.
   */
  lemma ParseIntDecimal(n: nat, negative: bool)
    ensures ParseInt((if negative then "-" else "") + DecimalString(n)) == Some(if negative then -(n as int) else n as int)
  {
    var r := DecimalString(n);
    var s := (if negative then "-" else "") + r;
    DecimalStringValue(n);
    NumeralUnpadded(r, negative);
    ParseIntOfNumeral(s, r);
  }

  lemma NumeralUnpadded(r: string, negative: bool)
    requires |r| > 0 && forall k :: 0 <= k < |r| ==> IsDigit(r[k])
    ensures var s := (if negative then "-" else "") + r;
      TrimStart(s) == s && (s == r || s == "-" + r)
  {
    var s := (if negative then "-" else "") + r;
    assert IsDigit(r[0]);
    if negative {
      assert s[0] == '-';
    } else {
      assert s == r;
      assert !IsSpace(s[0]);
    }
  }

  /** `parseInt` of a numeral without leading space: its sign applied to the decimal value. */
  lemma ParseIntOfNumeral(s: string, r: string)
    requires |r| > 0 && forall k :: 0 <= k < |r| ==> IsDigit(r[k])
    requires s == r || s == "-" + r
    requires TrimStart(s) == s
    ensures ParseInt(s) == Some(if s == r then DigitsValue(r, false) as int else -(DigitsValue(r, false) as int))
  {
    if s == r {
      ParseSignedDigits(r);
    } else {
      ParseSignedNegated(r);
    }
  }

  lemma ParseSignedDigits(r: string)
    requires |r| > 0 && forall k :: 0 <= k < |r| ==> IsDigit(r[k])
    ensures ParseSigned(r) == Some(DigitsValue(r, false) as int)
  {
    assert IsDigit(r[0]);
    ParseMagnitudeDigits(r);
  }

  lemma ParseSignedNegated(r: string)
    requires |r| > 0 && forall k :: 0 <= k < |r| ==> IsDigit(r[k])
    ensures ParseSigned("-" + r) == Some(-(DigitsValue(r, false) as int))
  {
    var s := "-" + r;
    assert s[0] == '-' && s[1..] == r;
    ParseMagnitudeDigits(r);
  }

  lemma ParseMagnitudeDigits(r: string)
    requires |r| > 0 && forall k :: 0 <= k < |r| ==> IsDigit(r[k])
    ensures ParseMagnitude(r) == Some(DigitsValue(r, false))
  {
    AllDigitsLead(r);
    assert !(|r| >= 2 && r[0] == '0' && (r[1] == 'x' || r[1] == 'X')) by {
      if |r| >= 2 {
        assert IsDigit(r[1]);
      }
    }
  }

  /** `parseInt` skips leading white space: padding the front does not change the number read. */
  lemma ParseIntSkipsSpace(p: string, s: string)
    requires AllSpace(p)
    ensures ParseInt(p + s) == ParseInt(s)
  {
    TrimStartSkips(p, s);
  }

  /**
   * `parseInt` reads the digits up to the first non-digit and ignores the
   * rest ("12abc" is 12), unless a lone "0" is followed by `x`, which opens a
   * hexadecimal numeral instead; `n` is the decimal value of the digits.
   */
  lemma ParseIntStopsAtNonDigit(negative: bool, r: string, rest: string, n: nat)
    requires |r| > 0 && forall k :: 0 <= k < |r| ==> IsDigit(r[k])
    requires rest == [] || !IsDigit(rest[0])
    requires r != "0" || rest == [] || (rest[0] != 'x' && rest[0] != 'X')
    requires DigitsValue(r, false) == n
    ensures ParseInt((if negative then "-" else "") + r + rest) == Some(if negative then -(n as int) else n as int)
  {
    var s := (if negative then "-" else "") + r + rest;
    DigitNotSpace(r[0]);
    assert s[0] == '-' || s[0] == r[0];
    TrimStartKeeps(s);
    ParseSignedStops(negative, r, rest, n);
  }

  lemma ParseSignedStops(negative: bool, r: string, rest: string, n: nat)
    requires |r| > 0 && forall k :: 0 <= k < |r| ==> IsDigit(r[k])
    requires rest == [] || !IsDigit(rest[0])
    requires r != "0" || rest == [] || (rest[0] != 'x' && rest[0] != 'X')
    requires DigitsValue(r, false) == n
    ensures ParseSigned((if negative then "-" else "") + r + rest) == Some(if negative then -(n as int) else n as int)
  {
    var sign := if negative then "-" else "";
    ConcatRegroup(sign, r, rest);
    ParseMagnitudeStops(r, rest);
    assert IsDigit(r[0]) && (r + rest)[0] == r[0];
    ParseSignedOfMagnitude(sign + r + rest, negative, r + rest, n);
  }

  lemma ConcatRegroup<T>(a: seq<T>, b: seq<T>, c: seq<T>)
    ensures a + b + c == a + (b + c)
  {
  }

  /** The sign applied to the magnitude of a body that starts with a digit. */
  lemma ParseSignedOfMagnitude(s: string, negative: bool, body: string, m: nat)
    requires body != [] && IsDigit(body[0]) && ParseMagnitude(body) == Some(m)
    requires s == (if negative then "-" else "") + body
    ensures ParseSigned(s) == Some(if negative then -(m as int) else m as int)
  {
    if negative {
      assert s[0] == '-' && s[1..] == body;
    } else {
      assert s == body;
    }
  }

  lemma DigitNotSpace(c: char)
    requires IsDigit(c)
    ensures !IsSpace(c)
  {
  }

  /** A string that does not start with white space is its own `trimStart`. */
  lemma TrimStartKeeps(s: string)
    requires s == [] || !IsSpace(s[0])
    ensures TrimStart(s) == s
  {
  }

  lemma ParseMagnitudeStops(r: string, rest: string)
    requires |r| > 0 && forall k :: 0 <= k < |r| ==> IsDigit(r[k])
    requires rest == [] || !IsDigit(rest[0])
    requires r != "0" || rest == [] || (rest[0] != 'x' && rest[0] != 'X')
    ensures ParseMagnitude(r + rest) == Some(DigitsValue(r, false))
  {
    var body := r + rest;
    DigitsThenStop(r, rest);
    assert !(|body| >= 2 && body[0] == '0' && (body[1] == 'x' || body[1] == 'X')) by {
      if |r| >= 2 {
        assert body[1] == r[1] && IsDigit(r[1]);
      } else if |body| >= 2 && body[0] == '0' {
        assert r == "0" && body[1] == rest[0];
      }
    }
  }

  lemma {:induction false} DigitsThenStop(r: string, rest: string)
    requires forall k :: 0 <= k < |r| ==> IsDigit(r[k])
    requires rest == [] || !IsDigit(rest[0])
    ensures LeadingDigits(r + rest, false) == r
  {
    if r == [] {
      assert r + rest == rest;
    } else {
      DigitsThenStop(r[1..], rest);
      assert (r + rest)[0] == r[0] && (r + rest)[1..] == r[1..] + rest;
      assert [r[0]] + r[1..] == r;
    }
  }

  /**
   * `parseInt` is `NaN` when no digit follows the leading white space and the
   * optional sign ("abc", "", "-", "- 5").
   */
  lemma ParseIntNoDigits(p: string, sign: string, rest: string)
    requires AllSpace(p)
    requires sign == "" || sign == "-" || sign == "+"
    requires rest == [] || !IsDigit(rest[0])
    requires sign == "" ==> rest == [] || (!IsSpace(rest[0]) && rest[0] != '-' && rest[0] != '+')
    ensures ParseInt(p + sign + rest) == None
  {
    var t := sign + rest;
    assert p + sign + rest == p + t;
    ParseIntSkipsSpace(p, t);
    assert t == [] || t[0] == '-' || t[0] == '+' || t[0] == rest[0];
    TrimStartKeeps(t);
    ParseSignedNoDigits(sign, rest);
  }

  lemma ParseSignedNoDigits(sign: string, rest: string)
    requires sign == "" || sign == "-" || sign == "+"
    requires rest == [] || !IsDigit(rest[0])
    requires sign == "" ==> rest == [] || (rest[0] != '-' && rest[0] != '+')
    ensures ParseSigned(sign + rest) == None
  {
    var t := sign + rest;
    if sign == "" {
      assert t == rest;
    } else {
      assert t[0] == sign[0] && t[1..] == rest;
    }
    assert LeadingDigits(rest, false) == [];
  }

  lemma {:induction false} AllDigitsLead(r: string)
    requires forall k :: 0 <= k < |r| ==> IsDigit(r[k])
    ensures LeadingDigits(r, false) == r
  {
    if r != [] {
      AllDigitsLead(r[1..]);
      assert [r[0]] + r[1..] == r;
    }
  }

  predicate IsUpperAscii(c: char) { 'A' <= c <= 'Z' }

  /** The ASCII lower-case form of one character: 'A'..'Z' move to 'a'..'z', everything else stays. */
  function LowerChar(c: char): (d: char)
    ensures !IsUpperAscii(d)
    ensures IsUpperAscii(c) ==> 'a' <= d <= 'z' && d as int - 'a' as int == c as int - 'A' as int
    ensures !IsUpperAscii(c) ==> d == c
  {
    if IsUpperAscii(c) then (c as int + 32) as char else c
  }

  /** `toLowerCase()` on the ASCII letters; every other character is kept. */
  function ToLowerAscii(s: string): (r: string)
    ensures |r| == |s|
    ensures forall k :: 0 <= k < |r| ==> !IsUpperAscii(r[k])
    ensures forall k :: 0 <= k < |s| && !IsUpperAscii(s[k]) ==> r[k] == s[k]
    ensures forall k :: 0 <= k < |s| && IsUpperAscii(s[k]) ==>
      'a' <= r[k] <= 'z' && r[k] as int - 'a' as int == s[k] as int - 'A' as int
  {
    seq(|s|, k requires 0 <= k < |s| => LowerChar(s[k]))
  }

  /** Two characters that are equal, or the same ASCII letter in the two cases. */
  predicate SameCharUpToCase(c: char, d: char) {
    c == d
    || (IsUpperAscii(c) && d as int == c as int + 32)
    || (IsUpperAscii(d) && c as int == d as int + 32)
  }

  /** Two strings that differ at most in the letter case of ASCII letters. */
  predicate SameUpToCase(a: string, b: string) {
    |a| == |b| && forall k :: 0 <= k < |a| ==> SameCharUpToCase(a[k], b[k])
  }

  /** Lower-casing identifies exactly the strings that differ only in ASCII letter case. */
  lemma ToLowerAsciiCaseBlind(a: string, b: string)
    ensures ToLowerAscii(a) == ToLowerAscii(b) <==> SameUpToCase(a, b)
  {
    var la, lb := ToLowerAscii(a), ToLowerAscii(b);
    if SameUpToCase(a, b) {
      forall k | 0 <= k < |a| ensures la[k] == lb[k] {
        assert la[k] == LowerChar(a[k]) && lb[k] == LowerChar(b[k]);
      }
    }
    if la == lb {
      forall k | 0 <= k < |a| ensures SameCharUpToCase(a[k], b[k]) {
        assert la[k] == LowerChar(a[k]) && lb[k] == LowerChar(b[k]);
      }
    }
  }

  /** Lower-casing twice is lower-casing once. */
  lemma ToLowerAsciiIdempotent(s: string)
    ensures ToLowerAscii(ToLowerAscii(s)) == ToLowerAscii(s)
  {
    var r := ToLowerAscii(s);
    assert forall k :: 0 <= k < |r| ==> ToLowerAscii(r)[k] == r[k];
  }

  /** A slice of case-equivalent strings is case-equivalent. */
  lemma SameUpToCaseSlice(a: string, b: string, i: nat, j: nat)
    requires SameUpToCase(a, b) && i <= j <= |a|
    ensures SameUpToCase(a[i..j], b[i..j])
  {
    forall k | 0 <= k < j - i ensures SameCharUpToCase(a[i..j][k], b[i..j][k]) {
      assert a[i..j][k] == a[i + k] && b[i..j][k] == b[i + k];
    }
  }

  /** A character that is not an ASCII letter has no other case. */
  lemma SameCharNonLetter(c: char, d: char)
    requires SameCharUpToCase(c, d) && !('A' <= c <= 'Z') && !('a' <= c <= 'z')
    ensures d == c
  {
  }
}
