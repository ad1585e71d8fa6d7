/**
 * The .NET string operations the view-models rely on, stated over `seq<char>`.
 * Searches are ordinal (character by character); `Substring` and `ParseInt`
 * are partial and return `None` where .NET throws.
 */
module Text {
  import opened Wrappers

  /** `pat` occurs in `s` starting at index `i`. */
  predicate OccursAt(s: string, pat: string, i: int) {
    0 <= i <= |s| - |pat| && s[i..i + |pat|] == pat
  }

  /** `String.Contains`. */
  predicate Contains(s: string, pat: string) {
    exists i | 0 <= i <= |s| - |pat| :: OccursAt(s, pat, i)
  }

  /** First occurrence of `pat` at or after `i`, or -1. */
  function IndexFrom(s: string, pat: string, i: nat): (r: int)
    decreases |s| - i
    ensures r == -1 || (i <= r && OccursAt(s, pat, r))
    ensures r == -1 ==> forall j | i <= j :: !OccursAt(s, pat, j)
    ensures r != -1 ==> forall j | i <= j < r :: !OccursAt(s, pat, j)
  {
    if i + |pat| > |s| then -1
    else if s[i..i + |pat|] == pat then i
    else IndexFrom(s, pat, i + 1)
  }

  /** `String.IndexOf`: the first occurrence, or -1 when there is none. */
  function IndexOf(s: string, pat: string): (r: int)
    ensures r == -1 <==> !Contains(s, pat)
    ensures r != -1 ==> OccursAt(s, pat, r) && forall j | 0 <= j < r :: !OccursAt(s, pat, j)
  {
    IndexFrom(s, pat, 0)
  }

  /** Last occurrence of `pat` at or before `i`, or -1. */
  function LastFrom(s: string, pat: string, i: int): (r: int)
    decreases i + 1
    ensures r == -1 || (0 <= r <= i && OccursAt(s, pat, r))
    ensures r == -1 ==> forall j | j <= i :: !OccursAt(s, pat, j)
    ensures r != -1 ==> forall j | r < j <= i :: !OccursAt(s, pat, j)
  {
    if i < 0 then -1
    else if OccursAt(s, pat, i) then i
    else LastFrom(s, pat, i - 1)
  }

  /** `String.LastIndexOf`: the last occurrence, or -1 when there is none. */
  function LastIndexOf(s: string, pat: string): (r: int)
    ensures r == -1 <==> !Contains(s, pat)
    ensures r != -1 ==> OccursAt(s, pat, r) && forall j | r < j :: !OccursAt(s, pat, j)
  {
    LastFrom(s, pat, |s| - |pat|)
  }

  /** `String.Substring(start, len)`, which throws unless the range lies inside `s`. */
  function Substring(s: string, start: int, len: int): (r: Option<string>)
    ensures r.Some? <==> 0 <= start && 0 <= len && start + len <= |s|
    ensures r.Some? ==> |r.value| == len && forall k | 0 <= k < len :: r.value[k] == s[start + k]
  {
    if 0 <= start && 0 <= len && start + len <= |s| then Some(s[start..start + len]) else None
  }

  predicate IsDigit(c: char) { '0' <= c <= '9' }

  /** The characters `NumberStyles.Integer` skips around a number. */
  predicate IsWhite(c: char) { c == ' ' || '\t' <= c <= '\r' }

  predicate AllDigits(d: string) { forall k | 0 <= k < |d| :: IsDigit(d[k]) }

  function DigitValue(c: char): nat
    requires IsDigit(c)
  {
    c as int - '0' as int
  }

  /** The decimal value of a digit string, most significant digit first. */
  function DigitsValue(d: string): nat
    requires AllDigits(d)
  {
    if d == [] then 0 else DigitsValue(d[..|d| - 1]) * 10 + DigitValue(d[|d| - 1])
  }

  function Pow10(n: nat): nat {
    if n == 0 then 1 else 10 * Pow10(n - 1)
  }

  lemma {:induction false} DigitsValueBound(d: string)
    requires AllDigits(d)
    ensures DigitsValue(d) < Pow10(|d|)
  {
    if d != [] {
      DigitsValueBound(d[..|d| - 1]);
    }
  }

  function TrimStartWhite(s: string): (r: string)
    ensures |r| <= |s| && r == s[|s| - |r|..]
    ensures r == [] || !IsWhite(r[0])
  {
    if |s| > 0 && IsWhite(s[0]) then TrimStartWhite(s[1..]) else s
  }

  function TrimEndWhite(s: string): (r: string)
    ensures |r| <= |s| && r == s[..|r|]
    ensures r == [] || !IsWhite(r[|r| - 1])
  {
    if |s| > 0 && IsWhite(s[|s| - 1]) then TrimEndWhite(s[..|s| - 1]) else s
  }

  const IntMin: int := -0x8000_0000
  const IntMax: int := 0x7FFF_FFFF

  /**
   * `int.Parse` with the default `NumberStyles.Integer`: optional white space
   * around an optional sign and one or more decimal digits; a value outside
   * the 32-bit range is an overflow.
   */
  function ParseInt(s: string): (r: Option<int>)
    ensures r.Some? ==> IntMin <= r.value <= IntMax
  {
    ParseTrimmed(TrimEndWhite(TrimStartWhite(s)))
  }

  /** The number once the surrounding white space is gone. */
  function ParseTrimmed(t: string): (r: Option<int>)
    ensures r.Some? ==> IntMin <= r.value <= IntMax
  {
    var signed := |t| > 0 && (t[0] == '-' || t[0] == '+');
    var digits := if signed then t[1..] else t;
    if |digits| == 0 || !AllDigits(digits) then None
    else
      var v: int := if signed && t[0] == '-' then -(DigitsValue(digits) as int) else DigitsValue(digits);
      if IntMin <= v <= IntMax then Some(v) else None
  }

  /** A run of up to nine digits always parses to its decimal value. */
  lemma ParseDigits(d: string)
    requires AllDigits(d) && 0 < |d| <= 9
    ensures ParseInt(d) == Some(DigitsValue(d))
  {
    ParseUnsigned(d);
    DigitsAreTrimmed(d);
  }

  /** Without white space around them, up to nine digits parse to their value. */
  lemma ParseUnsigned(d: string)
    requires AllDigits(d) && 0 < |d| <= 9
    ensures ParseTrimmed(d) == Some(DigitsValue(d))
  {
    NineDigitsFit(d);
    assert d[0] != '-' && d[0] != '+' by {
      assert IsDigit(d[0]);
    }
  }

  /** Trimming white space leaves a digit string as it is. */
  lemma DigitsAreTrimmed(d: string)
    requires AllDigits(d) && 0 < |d|
    ensures TrimEndWhite(TrimStartWhite(d)) == d
  {
    assert TrimStartWhite(d) == d by {
      assert !IsWhite(d[0]);
    }
    assert !IsWhite(d[|d| - 1]);
  }

  /** Nine digits never exceed the 32-bit maximum. */
  lemma NineDigitsFit(d: string)
    requires AllDigits(d) && |d| <= 9
    ensures DigitsValue(d) <= IntMax
  {
    DigitsValueBound(d);
    Pow10Monotone(|d|, 9);
    Pow10Nine();
  }

  lemma Pow10Nine()
    ensures Pow10(9) == 1_000_000_000
  {
    assert Pow10(3) == 1000;
    assert Pow10(6) == 1000 * Pow10(3);
    assert Pow10(9) == 1000 * Pow10(6);
  }

  lemma {:induction false} Pow10Monotone(a: nat, b: nat)
    requires a <= b
    ensures Pow10(a) <= Pow10(b)
  {
    if a < b {
      Pow10Monotone(a, b - 1);
    }
  }

  /** A string with a character that is neither a digit, white space nor a sign never parses. */
  lemma ParseRejects(s: string, k: nat)
    requires k < |s| && !IsDigit(s[k]) && !IsWhite(s[k]) && s[k] != '-' && s[k] != '+'
    ensures ParseInt(s) == None
  {
    var a := TrimStartWhite(s);
    var t := TrimEndWhite(a);
    var kk := k - (|s| - |a|);
    assert 0 <= kk < |t| && t[kk] == s[k] by {
      if kk < 0 {
        TrimmedPrefixIsWhite(s, k);
      }
      if kk >= |t| {
        TrimmedSuffixIsWhite(a, kk);
      }
    }
    var signed := |t| > 0 && (t[0] == '-' || t[0] == '+');
    var digits := if signed then t[1..] else t;
    if signed {
      assert kk > 0 && digits[kk - 1] == s[k];
    } else {
      assert digits[kk] == s[k];
    }
  }

  lemma {:induction false} TrimmedPrefixIsWhite(s: string, k: nat)
    requires k < |s| - |TrimStartWhite(s)|
    ensures IsWhite(s[k])
  {
    if k > 0 {
      TrimmedPrefixIsWhite(s[1..], k - 1);
    }
  }

  lemma {:induction false} TrimmedSuffixIsWhite(s: string, k: nat)
    requires |TrimEndWhite(s)| <= k < |s|
    ensures IsWhite(s[k])
  {
    if k < |s| - 1 {
      TrimmedSuffixIsWhite(s[..|s| - 1], k);
    }
  }

  /** `TrimStart(c)`: drops every leading `c`. */
  function TrimStart(s: string, c: char): (r: string)
    ensures |r| <= |s| && r == s[|s| - |r|..]
    ensures r == [] || r[0] != c
    ensures forall k | 0 <= k < |s| - |r| :: s[k] == c
  {
    if |s| > 0 && s[0] == c then TrimStart(s[1..], c) else s
  }

  /** `TrimEnd(c)`: drops every trailing `c`. */
  function TrimEnd(s: string, c: char): (r: string)
    ensures |r| <= |s| && r == s[..|r|]
    ensures r == [] || r[|r| - 1] != c
    ensures forall k | |r| <= k < |s| :: s[k] == c
  {
    if |s| > 0 && s[|s| - 1] == c then TrimEnd(s[..|s| - 1], c) else s
  }

  function DigitChar(d: nat): (c: char)
    requires d < 10
    ensures IsDigit(c) && DigitValue(c) == d
  {
    ('0' as int + d) as char
  }

  /** `Int32.ToString()` for a count: decimal digits without leading zeros. */
  function NatToString(n: nat): (r: string)
    ensures 0 < |r| && AllDigits(r)
    ensures DigitsValue(r) == n
    ensures |r| > 1 ==> r[0] != '0'
  {
    if n < 10 then [DigitChar(n)]
    else
      var r := NatToString(n / 10) + [DigitChar(n % 10)];
      assert r[..|r| - 1] == NatToString(n / 10);
      r
  }
}
