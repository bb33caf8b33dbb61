/**
  String operations shared by both installers: the last `/`-segment of a URL,
  percent-decoding (Python's `urllib.parse.unquote` and JavaScript's
  `decodeURIComponent`), the `digits-` slug prefix, substring search and
  removal, and decimal rendering of integers.
 */
module Text {

  datatype Option<+T> = None | Some(value: T)

  datatype Result<+T, +E> = Ok(value: T) | Err(error: E)

  // ---------------------------------------------------------------------------
  // Last path segment
  // ---------------------------------------------------------------------------

  /** The text after the last '/', or the whole string when it has none
      (`s.split('/')[-1]` in Python, `s.split('/')` then the last element in JavaScript). */
  /** A character that s lacks, its last segment lacks too. */
  lemma LastSegmentLacks(s: string, c: char)
    requires c !in s
    ensures c !in LastSegment(s)
  {
    var r := LastSegment(s);
    forall i | 0 <= i < |r| ensures r[i] != c {
      assert r[i] == s[|s| - |r|..][i] == s[|s| - |r| + i];
    }
  }

  function LastSegment(s: string): (r: string)
    ensures '/' !in r
    ensures |r| <= |s| && s[|s| - |r|..] == r
    ensures |r| < |s| ==> s[|s| - |r| - 1] == '/'
  {
    if |s| == 0 then ""
    else if s[|s| - 1] == '/' then ""
    else LastSegment(s[..|s| - 1]) + [s[|s| - 1]]
  }

  /** Whatever precedes it, a '/'-free tail after a '/' is the last segment. */
  lemma {:induction false} LastSegmentAfterSlash(prefix: string, seg: string)
    requires '/' !in seg
    ensures LastSegment(prefix + "/" + seg) == seg
    decreases |seg|
  {
    var s := prefix + "/" + seg;
    if seg == [] {
      assert s[|s| - 1] == '/';
    } else {
      var init := seg[..|seg| - 1];
      assert s[..|s| - 1] == prefix + "/" + init;
      assert s[|s| - 1] == seg[|seg| - 1];
      assert '/' !in init by {
        assert forall i | 0 <= i < |init| :: init[i] == seg[i];
      }
      LastSegmentAfterSlash(prefix, init);
      assert init + [seg[|seg| - 1]] == seg;
    }
  }

  /** A string without '/' is its own last segment. */
  lemma LastSegmentOfSegment(s: string)
    requires '/' !in s
    ensures LastSegment(s) == s
  {
    var r := LastSegment(s);
    assert forall i | 0 <= i < |s| :: s[i] != '/';
  }

  // ---------------------------------------------------------------------------
  // Percent-decoding
  // ---------------------------------------------------------------------------

  predicate IsHexDigit(c: char) {
    '0' <= c <= '9' || 'a' <= c <= 'f' || 'A' <= c <= 'F'
  }

  function HexValue(c: char): (v: nat)
    requires IsHexDigit(c)
    ensures v < 16
  {
    if '0' <= c <= '9' then c as nat - '0' as nat
    else if 'a' <= c <= 'f' then c as nat - 'a' as nat + 10
    else c as nat - 'A' as nat + 10
  }

  /** The upper-case hexadecimal digit of a value below 16. */
  function HexDigit(v: nat): (c: char)
    requires v < 16
    ensures IsHexDigit(c) && HexValue(c) == v
  {
    if v < 10 then ('0' as nat + v) as char else ('A' as nat + v - 10) as char
  }

  /** True when s starts with a well-formed escape: '%' and two hexadecimal digits. */
  predicate EscapeAt(s: string, i: nat) {
    i + 2 < |s| && s[i] == '%' && IsHexDigit(s[i + 1]) && IsHexDigit(s[i + 2])
  }

  function EscapedChar(h: char, l: char): (c: char)
    requires IsHexDigit(h) && IsHexDigit(l)
    ensures c as nat < 256
  {
    (HexValue(h) * 16 + HexValue(l)) as char
  }

  /** `urllib.parse.unquote`: every `%XX` with two hexadecimal digits becomes the
      character with that code; a '%' not followed by two of them is kept as it is. */
  function Unquote(s: string): (r: string)
    ensures '%' !in s ==> r == s
    ensures |r| <= |s|
  {
    if |s| == 0 then ""
    else if EscapeAt(s, 0) then [EscapedChar(s[1], s[2])] + Unquote(s[3..])
    else [s[0]] + Unquote(s[1..])
  }

  /** Text without '%' passes through Unquote unchanged, whatever follows it. */
  lemma {:induction false} UnquotePlainPrefix(a: string, b: string)
    requires '%' !in a
    ensures Unquote(a + b) == a + Unquote(b)
  {
    if |a| > 0 {
      assert (a + b)[0] == a[0] && (a + b)[1..] == a[1..] + b;
      UnquotePlainPrefix(a[1..], b);
    } else {
      assert a + b == b;
    }
  }

  /** True when some '%' in s does not start a well-formed escape. */
  predicate HasMalformedEscape(s: string)
  {
    if |s| == 0 then false
    else if EscapeAt(s, 0) then HasMalformedEscape(s[3..])
    else s[0] == '%' || HasMalformedEscape(s[1..])
  }

  /** `decodeURIComponent`: like Unquote, except that a malformed escape throws
      (None here). */
  function DecodeComponent(s: string): (r: Option<string>)
    ensures '%' !in s ==> r == Some(s)
    ensures r.Some? ==> |r.value| <= |s|
  {
    if '%' !in s then
      PlainWellFormed(s);
      Some(Unquote(s))
    else if HasMalformedEscape(s) then None
    else Some(Unquote(s))
  }

  /** Text without '%' has no malformed escape. */
  lemma {:induction false} PlainWellFormed(s: string)
    requires '%' !in s
    ensures !HasMalformedEscape(s)
    decreases |s|
  {
    if |s| > 0 {
      assert s[0] in s && '%' !in s[1..];
      PlainWellFormed(s[1..]);
    }
  }

  /** Percent-encodes '%' and '/', the two characters that would change how a
      segment is split or decoded; everything else is kept. */
  function EscapeSegment(s: string): (r: string)
    ensures '/' !in r
  {
    if |s| == 0 then ""
    else (if s[0] == '%' then "%25" else if s[0] == '/' then "%2F" else [s[0]]) + EscapeSegment(s[1..])
  }

  lemma {:induction false} UnquoteEscapeSegment(s: string)
    ensures Unquote(EscapeSegment(s)) == s
    ensures !HasMalformedEscape(EscapeSegment(s))
  {
    if |s| > 0 {
      var e, tail := EscapeSegment(s), EscapeSegment(s[1..]);
      UnquoteEscapeSegment(s[1..]);
      if s[0] == '%' || s[0] == '/' {
        var code := if s[0] == '%' then "%25" else "%2F";
        assert e == code + tail;
        assert e[3..] == tail;
        assert EscapeAt(e, 0) && EscapedChar(e[1], e[2]) == s[0];
      } else {
        assert e == [s[0]] + tail;
        assert e[1..] == tail;
      }
      assert s == [s[0]] + s[1..];
    }
  }

  /** Percent-encodes every character of an ASCII string: each one becomes
      `%XX`, its code in two upper-case hexadecimal digits. (Above 127 an escape
      is one byte of UTF-8 and no longer a character by itself.) */
  function PercentEncode(s: string): (r: string)
    requires forall i | 0 <= i < |s| :: s[i] as nat < 128
    ensures |r| == 3 * |s|
  {
    if |s| == 0 then ""
    else
      var c := s[0] as nat;
      ['%', HexDigit(c / 16), HexDigit(c % 16)] + PercentEncode(s[1..])
  }

  /** `unquote` reads every escape as the character with its code, so it undoes
      PercentEncode; and decodeURIComponent accepts what PercentEncode writes. */
  lemma {:induction false} UnquotePercentEncode(s: string)
    requires forall i | 0 <= i < |s| :: s[i] as nat < 128
    ensures Unquote(PercentEncode(s)) == s
    ensures DecodeComponent(PercentEncode(s)) == Some(s)
  {
    if |s| > 0 {
      var e, c := PercentEncode(s), s[0] as nat;
      UnquotePercentEncode(s[1..]);
      assert EscapeAt(e, 0);
      assert EscapedChar(e[1], e[2]) == s[0] by {
        assert HexValue(e[1]) * 16 + HexValue(e[2]) == c;
      }
      assert e[3..] == PercentEncode(s[1..]);
      assert s == [s[0]] + s[1..];
    }
  }

  /** decodeURIComponent undoes EscapeSegment and never throws on its output. */
  lemma DecodeEscapeSegment(s: string)
    ensures DecodeComponent(EscapeSegment(s)) == Some(s)
  {
    UnquoteEscapeSegment(s);
  }

  // ---------------------------------------------------------------------------
  // The `digits-` prefix of a project slug
  // ---------------------------------------------------------------------------

  predicate IsDigit(c: char) { '0' <= c <= '9' }

  predicate AllDigits(s: string) { forall i | 0 <= i < |s| :: IsDigit(s[i]) }

  /** Digits are neither separators nor escapes. */
  lemma DigitsAreLiteral(s: string)
    requires AllDigits(s)
    ensures '/' !in s && '%' !in s
  {
  }

  /** Length of the run of digits at the start of s. */
  function DigitRun(s: string): (n: nat)
    ensures n <= |s| && AllDigits(s[..n])
    ensures n < |s| ==> !IsDigit(s[n])
  {
    if |s| == 0 || !IsDigit(s[0]) then 0
    else
      var n := 1 + DigitRun(s[1..]);
      assert s[..n] == [s[0]] + s[1..][..n - 1];
      n
  }

  /** True when s is one or more digits, a '-', and then `rest`. */
  predicate IdPrefixed(s: string, k: nat) {
    0 < k < |s| && AllDigits(s[..k]) && s[k] == '-'
  }

  /** `re.sub(r'^\d+-', '', s)` and `s.replace(/^\d+-/g, '')`: one leading run of
      digits followed by '-' is removed; the anchor keeps the match at the start. */
  function StripIdPrefix(s: string): (r: string)
    ensures r == s || exists k :: IdPrefixed(s, k) && r == s[k + 1..]
    ensures forall k :: IdPrefixed(s, k) ==> r == s[k + 1..]
  {
    var n := DigitRun(s);
    assert forall i | 0 <= i < n :: IsDigit(s[i]) by {
      forall i | 0 <= i < n ensures IsDigit(s[i]) { assert s[..n][i] == s[i]; }
    }
    assert forall k: nat :: IdPrefixed(s, k) ==> k == n by {
      forall k: nat | IdPrefixed(s, k) ensures k == n {
        forall i | 0 <= i < k ensures IsDigit(s[i]) { assert s[..k][i] == s[i]; }
      }
    }
    if 0 < n < |s| && s[n] == '-' then assert IdPrefixed(s, n); s[n + 1..] else s
  }

  /** An id rendered in decimal, a '-', and a rest: stripping leaves the rest. */
  lemma StripDecimalPrefix(id: nat, rest: string)
    ensures StripIdPrefix(Decimal(id) + "-" + rest) == rest
  {
    var digits := Decimal(id);
    var s := digits + "-" + rest;
    assert s[..|digits|] == digits && s[|digits|] == '-';
    assert IdPrefixed(s, |digits|);
    assert s[|digits| + 1..] == rest;
  }

  // ---------------------------------------------------------------------------
  // Substring search and removal
  // ---------------------------------------------------------------------------

  predicate OccursAt(s: string, pat: string, i: nat) {
    i + |pat| <= |s| && s[i..i + |pat|] == pat
  }

  /** Index of the first occurrence of pat in s, or -1 (JavaScript `indexOf`;
      Python `str.index` raises where this gives -1). */
  function Find(s: string, pat: string): (i: int)
    ensures -1 <= i <= |s|
    ensures i >= 0 ==> OccursAt(s, pat, i)
    ensures forall j: nat | j < |s| + 1 && (i == -1 || j < i) :: !OccursAt(s, pat, j)
    decreases |s|
  {
    if OccursAt(s, pat, 0) then 0
    else if |s| == 0 then -1
    else
      var i := Find(s[1..], pat);
      assert forall j: nat | 0 < j <= |s| :: OccursAt(s, pat, j) == OccursAt(s[1..], pat, j - 1) by {
        forall j: nat | 0 < j <= |s| ensures OccursAt(s, pat, j) == OccursAt(s[1..], pat, j - 1) {
          if j + |pat| <= |s| { assert s[j..j + |pat|] == s[1..][j - 1..j - 1 + |pat|]; }
        }
      }
      if i == -1 then -1 else i + 1
  }

  /** `Find` succeeds wherever the pattern occurs. */
  lemma FindOccurrence(s: string, pat: string, i: nat)
    requires OccursAt(s, pat, i)
    ensures 0 <= Find(s, pat) <= i
  {
  }

  /** JavaScript `s.replace(pat, '')` with a string pattern: only the first
      occurrence goes. */
  function RemoveFirst(s: string, pat: string): (r: string)
    ensures Find(s, pat) == -1 ==> r == s
    ensures Find(s, pat) >= 0 ==> |r| == |s| - |pat| && r == s[..Find(s, pat)] + s[Find(s, pat) + |pat|..]
  {
    var i := Find(s, pat);
    if i == -1 then s else s[..i] + s[i + |pat|..]
  }

  /** The number of occurrences of pat a left-to-right scan finds, each scan
      going on after the occurrence it found. */
  function Matches(s: string, pat: string): (n: nat)
    requires pat != ""
    ensures n >= 1 <==> Find(s, pat) >= 0
    decreases |s|
  {
    var i := Find(s, pat);
    if i == -1 then 0 else 1 + Matches(s[i + |pat|..], pat)
  }

  /** Python `re.sub(pat, '', s)` for a literal pattern: every occurrence found in
      one left-to-right scan goes, one pattern's length each; with a single
      one found, this is removing the first. */
  function RemoveAll(s: string, pat: string): (r: string)
    requires pat != ""
    ensures |r| == |s| - |pat| * Matches(s, pat)
    ensures Find(s, pat) == -1 ==> r == s
    ensures Find(s, pat) >= 0 ==> |r| <= |s| - |pat|
    ensures Matches(s, pat) == 1 ==> r == RemoveFirst(s, pat)
    ensures r == Concat(Pieces(s, pat))
    decreases |s|
  {
    var i := Find(s, pat);
    if i == -1 then
      MulZero(|pat|);
      assert Pieces(s, pat) == [s];
      assert Concat([s]) == s + Concat([]);
      s
    else
      var rest := s[i + |pat|..];
      var tail, m := RemoveAll(rest, pat), Matches(rest, pat);
      assert Matches(s, pat) == 1 + m;
      LengthStep(|s|, i, |pat|, m, |tail|, |s[..i] + tail|, 1 + m);
      var ps := Pieces(s, pat);
      assert ps == [s[..i]] + Pieces(rest, pat);
      assert ps[1..] == Pieces(rest, pat);
      s[..i] + tail
  }

  /** Python `sep.join(ps)`. */
  function JoinWith(ps: seq<string>, sep: string): string {
    if ps == [] then "" else if |ps| == 1 then ps[0] else ps[0] + sep + JoinWith(ps[1..], sep)
  }

  /** The pieces one after the other, `''.join(ps)`. */
  function Concat(ps: seq<string>): string {
    if ps == [] then "" else ps[0] + Concat(ps[1..])
  }

  /** What the left-to-right scan for pat cuts s into: the text before each
      occurrence it finds, then what follows the last one. Joined with pat
      they give s back, and none of them holds pat. */
  function Pieces(s: string, pat: string): (ps: seq<string>)
    requires pat != ""
    ensures |ps| == Matches(s, pat) + 1
    ensures JoinWith(ps, pat) == s
    ensures forall k | 0 <= k < |ps| :: Find(ps[k], pat) == -1
    decreases |s|
  {
    var i := Find(s, pat);
    if i == -1 then [s]
    else
      var rest := Pieces(s[i + |pat|..], pat);
      PiecesStep(s, pat, i, rest);
      [s[..i]] + rest
  }

  /** The recursive step of Pieces: the text before the first occurrence,
      put in front of the pieces of what follows it. */
  lemma PiecesStep(s: string, pat: string, i: int, rest: seq<string>)
    requires pat != "" && 0 <= i == Find(s, pat)
    requires |rest| == Matches(s[i + |pat|..], pat) + 1
    requires JoinWith(rest, pat) == s[i + |pat|..]
    requires forall k | 0 <= k < |rest| :: Find(rest[k], pat) == -1
    ensures |[s[..i]] + rest| == Matches(s, pat) + 1
    ensures JoinWith([s[..i]] + rest, pat) == s
    ensures forall k | 0 <= k < |[s[..i]] + rest| :: Find(([s[..i]] + rest)[k], pat) == -1
  {
    SplitAtFind(s, pat, i);
    JoinStep(s[..i], pat, rest);
    FindBefore(s, pat, i);
    FreeStep(s[..i], pat, rest);
  }

  /** s is the text before its first occurrence of pat, pat, and the rest. */
  lemma SplitAtFind(s: string, pat: string, i: int)
    requires pat != "" && 0 <= i == Find(s, pat)
    ensures s == s[..i] + pat + s[i + |pat|..]
  {
    assert s[i..i + |pat|] == pat;
    assert s == s[..i] + s[i..i + |pat|] + s[i + |pat|..];
  }

  /** Joining a piece in front of non-empty pieces puts sep between them. */
  lemma JoinStep(before: string, sep: string, rest: seq<string>)
    requires rest != []
    ensures JoinWith([before] + rest, sep) == before + sep + JoinWith(rest, sep)
  {
    assert ([before] + rest)[1..] == rest;
  }

  /** A pattern-free piece in front of pattern-free pieces. */
  lemma FreeStep(before: string, pat: string, rest: seq<string>)
    requires Find(before, pat) == -1
    requires forall k | 0 <= k < |rest| :: Find(rest[k], pat) == -1
    ensures forall k | 0 <= k < |[before] + rest| :: Find(([before] + rest)[k], pat) == -1
  {
    forall k | 0 <= k < |[before] + rest| ensures Find(([before] + rest)[k], pat) == -1 {
      if k > 0 {
        assert ([before] + rest)[k] == rest[k - 1];
      }
    }
  }

  /** Nothing before the first occurrence holds the pattern. */
  lemma FindBefore(s: string, pat: string, i: int)
    requires pat != "" && 0 <= i == Find(s, pat)
    ensures Find(s[..i], pat) == -1
  {
    forall j: nat | j <= i ensures OccursAt(s[..i], pat, j) ==> OccursAt(s, pat, j) {
      if j + |pat| <= i {
        assert s[..i][j..j + |pat|] == s[j..j + |pat|];
      }
    }
  }

  /** After a pattern-free stretch, the pattern is found right at its end,
      when the pattern's first character does not come back inside it. */
  lemma FindAfterFree(a: string, pat: string, b: string)
    requires pat != "" && pat[0] !in pat[1..] && Find(a, pat) == -1
    ensures Find(a + pat + b, pat) == |a|
  {
    var s := a + pat + b;
    assert s[|a|..|a| + |pat|] == pat;
    assert OccursAt(s, pat, |a|);
    forall j: nat | j < |a| ensures !OccursAt(s, pat, j) {
      if j + |pat| <= |a| {
        assert s[j..j + |pat|] == a[j..j + |pat|];
        assert !OccursAt(a, pat, j);
        assert !OccursAt(s, pat, j);
      } else {
        var d := |a| - j;
        assert s[|a|] == pat[0];
        assert pat[d] == pat[1..][d - 1];
        assert pat[d] in pat[1..];
        assert pat[d] != pat[0];
        assert j + |pat| <= |s| ==> s[j..j + |pat|][d] == s[|a|];
      }
    }
  }

  /** When the pattern's first character does not come back inside it (as
      with `.zip`), pattern-free pieces joined with it are cut back into
      exactly those pieces: the scan finds every occurrence. */
  lemma {:induction false} PiecesOfJoin(ps: seq<string>, pat: string)
    requires pat != "" && pat[0] !in pat[1..] && ps != []
    requires forall k | 0 <= k < |ps| :: Find(ps[k], pat) == -1
    ensures Pieces(JoinWith(ps, pat), pat) == ps
    decreases |ps|
  {
    if |ps| > 1 {
      var a, rest := ps[0], JoinWith(ps[1..], pat);
      assert JoinWith(ps, pat) == a + pat + rest;
      FindAfterFree(a, pat, rest);
      var s := a + pat + rest;
      assert s[..|a|] == a && s[|a| + |pat|..] == rest;
      assert forall k | 0 <= k < |ps[1..]| :: Find(ps[1..][k], pat) == -1 by {
        forall k | 0 <= k < |ps[1..]| ensures Find(ps[1..][k], pat) == -1 {
          assert ps[1..][k] == ps[k + 1];
        }
      }
      PiecesOfJoin(ps[1..], pat);
      assert ps == [a] + ps[1..];
    } else {
      assert JoinWith(ps, pat) == ps[0];
    }
  }

  /** Removing every occurrence from pattern-free pieces joined by the pattern
      leaves the pieces, one after the other. */
  lemma RemoveAllJoin(ps: seq<string>, pat: string)
    requires pat != "" && pat[0] !in pat[1..] && ps != []
    requires forall k | 0 <= k < |ps| :: Find(ps[k], pat) == -1
    ensures RemoveAll(JoinWith(ps, pat), pat) == Concat(ps)
  {
    PiecesOfJoin(ps, pat);
  }

  lemma MulZero(k: int)
    ensures k * 0 == 0
  {
  }

  /** The length arithmetic of one step of the scan. */
  lemma LengthStep(n: int, i: int, k: int, m: int, lr: int, ls: int, ms: int)
    requires ls == i + lr && lr == n - i - k - k * m && ms == 1 + m
    ensures ls == n - k * ms
  {
  }

  /** With a single occurrence, at the end, both removals give the stem. */
  lemma {:induction false} RemoveSuffixOnce(stem: string, pat: string)
    requires pat != "" && Find(stem + pat, pat) == |stem|
    ensures RemoveFirst(stem + pat, pat) == stem
    ensures RemoveAll(stem + pat, pat) == stem
  {
    var s := stem + pat;
    assert s[..|stem|] == stem;
    assert s[|stem| + |pat|..] == "";
    assert Find("", pat) == -1;
  }

  // ---------------------------------------------------------------------------
  // Decimal rendering
  // ---------------------------------------------------------------------------

  function DigitChar(d: nat): (c: char)
    requires d < 10
    ensures IsDigit(c)
  {
    ('0' as nat + d) as char
  }

  /** Decimal digits of n, without leading zeros. */
  function Decimal(n: nat): (s: string)
    ensures |s| > 0 && AllDigits(s)
    ensures s[0] == '0' ==> n == 0
  {
    if n < 10 then [DigitChar(n)] else Decimal(n / 10) + [DigitChar(n % 10)]
  }

  /** The value of a string of decimal digits. */
  function DecimalValue(s: string): nat
    requires AllDigits(s)
  {
    if |s| == 0 then 0 else 10 * DecimalValue(s[..|s| - 1]) + (s[|s| - 1] as nat - '0' as nat)
  }

  lemma {:induction false} DecimalRoundTrip(n: nat)
    ensures DecimalValue(Decimal(n)) == n
  {
    if n >= 10 {
      DecimalRoundTrip(n / 10);
      var s := Decimal(n);
      assert s[..|s| - 1] == Decimal(n / 10);
    }
  }

  /** JavaScript's rendering of an integral number: a '-' before the digits of a
      negative one; the digits read back as the magnitude, with no leading zero. */
  function IntString(n: int): (s: string)
    ensures n >= 0 ==> AllDigits(s) && DecimalValue(s) == n
    ensures n < 0 ==> |s| >= 2 && s[0] == '-' && AllDigits(s[1..]) && DecimalValue(s[1..]) == -n
    ensures var digits := if n < 0 then s[1..] else s; digits != "" && (digits[0] == '0' ==> digits == "0")
  {
    if n < 0 then
      DecimalRoundTrip(-n);
      assert ("-" + Decimal(-n))[1..] == Decimal(-n);
      "-" + Decimal(-n)
    else
      DecimalRoundTrip(n);
      Decimal(n)
  }
}
