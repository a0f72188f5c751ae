/** The few JavaScript string operations the backend relies on, over `seq<char>`. */
module Text {
  import opened Wrappers

  /** JavaScript WhiteSpace and LineTerminator code points: what `trim()` strips and `\s` matches. */
  predicate IsSpace(c: char) {
    c == ' ' || c == '\t' || c == '\n' || c == '\U{000B}' || c == '\U{000C}' || c == '\r'
    || c == '\U{00A0}' || c == '\U{1680}' || ('\U{2000}' <= c <= '\U{200A}')
    || c == '\U{2028}' || c == '\U{2029}' || c == '\U{202F}' || c == '\U{205F}'
    || c == '\U{3000}' || c == '\U{FEFF}'
  }

  predicate NoSpace(s: string) {
    forall i :: 0 <= i < |s| ==> !IsSpace(s[i])
  }

  /** Drops leading white space. */
  function TrimStart(s: string): (r: string)
    ensures |r| <= |s| && r == s[|s| - |r|..]
    ensures forall i :: 0 <= i < |s| - |r| ==> IsSpace(s[i])
    ensures r == [] || !IsSpace(r[0])
  {
    if |s| > 0 && IsSpace(s[0]) then
      var r := TrimStart(s[1..]);
      assert forall i :: 1 <= i < |s| ==> s[i] == s[1..][i - 1];
      r
    else s
  }

  /** Drops trailing white space. */
  function TrimEnd(s: string): (r: string)
    ensures |r| <= |s| && r == s[..|r|]
    ensures forall i :: |r| <= i < |s| ==> IsSpace(s[i])
    ensures r == [] || !IsSpace(r[|r| - 1])
  {
    if |s| > 0 && IsSpace(s[|s| - 1]) then
      var r := TrimEnd(s[..|s| - 1]);
      assert forall i :: 0 <= i < |s| - 1 ==> s[i] == s[..|s| - 1][i];
      r
    else s
  }

  /** `r` is the slice of `s` at `k`, with only white space before and after it. */
  predicate TrimmedAt(s: string, r: string, k: int) {
    && 0 <= k <= |s| - |r|
    && r == s[k..k + |r|]
    && (forall i :: 0 <= i < k ==> IsSpace(s[i]))
    && (forall i :: k + |r| <= i < |s| ==> IsSpace(s[i]))
  }

  /** `String.prototype.trim`: white space is cut from both ends. */
  function Trim(s: string): (r: string)
    ensures |r| <= |s|
    ensures r == [] || (!IsSpace(r[0]) && !IsSpace(r[|r| - 1]))
  {
    TrimEnd(TrimStart(s))
  }

  /** What `trim` leaves is the slice of `s` that only white space surrounds. */
  lemma TrimIsSlice(s: string)
    ensures exists k :: TrimmedAt(s, Trim(s), k)
  {
    var t := TrimStart(s);
    assert Trim(s) == TrimEnd(t);
    SliceOfSlice(s, t, TrimEnd(t));
    assert TrimmedAt(s, Trim(s), |s| - |t|);
  }

  /** A prefix `r` of a suffix `t` of `s`, with white space around both cuts, is trimmed from `s`. */
  lemma SliceOfSlice(s: string, t: string, r: string)
    requires |t| <= |s| && t == s[|s| - |t|..] && forall i :: 0 <= i < |s| - |t| ==> IsSpace(s[i])
    requires |r| <= |t| && r == t[..|r|] && forall i :: |r| <= i < |t| ==> IsSpace(t[i])
    ensures TrimmedAt(s, r, |s| - |t|)
  {
    var k := |s| - |t|;
    assert forall i :: 0 <= i < |r| ==> r[i] == t[i] == s[k + i];
    assert r == s[k..k + |r|];
    assert forall i :: k + |r| <= i < |s| ==> s[i] == t[i - k];
  }

  /** Trimming twice is trimming once. */
  lemma TrimIdempotent(s: string)
    ensures Trim(Trim(s)) == Trim(s)
  {
    var r := Trim(s);
    assert TrimStart(r) == r;
    assert TrimEnd(r) == r;
  }

  /** ASCII case mapping of `toLowerCase` (other scripts are not modelled). */
  function LowerChar(c: char): char {
    if 'A' <= c <= 'Z' then (c as int + 32) as char else c
  }

  predicate IsLowerCase(s: string) {
    forall i :: 0 <= i < |s| ==> !('A' <= s[i] <= 'Z')
  }

  function ToLower(s: string): (r: string)
    ensures |r| == |s|
    ensures forall i :: 0 <= i < |s| ==> r[i] == LowerChar(s[i])
  {
    if s == [] then [] else [LowerChar(s[0])] + ToLower(s[1..])
  }

  /** Lower-casing yields a lower-case string, and doing it again changes nothing. */
  lemma ToLowerIdempotent(s: string)
    ensures IsLowerCase(ToLower(s))
    ensures ToLower(ToLower(s)) == ToLower(s)
  {
  }

  /** Lower-casing never touches white space, so it commutes with trimming. */
  lemma LowerKeepsSpace(s: string)
    ensures forall i :: 0 <= i < |s| ==> (IsSpace(ToLower(s)[i]) <==> IsSpace(s[i]))
  {
  }

  predicate StartsWith(s: string, prefix: string) {
    |prefix| <= |s| && s[..|prefix|] == prefix
  }

  predicate OccursAt(s: string, pat: string, j: int) {
    0 <= j && j + |pat| <= |s| && s[j..j + |pat|] == pat
  }

  /** First occurrence of `pat` in `s` at or after `from`. */
  function IndexOfFrom(s: string, pat: string, from: nat): (r: Option<nat>)
    requires from <= |s|
    ensures r.Some? ==> from <= r.value && OccursAt(s, pat, r.value)
    ensures forall j :: from <= j && (r.None? || j < r.value) ==> !OccursAt(s, pat, j)
    decreases |s| - from
  {
    if OccursAt(s, pat, from) then Some(from)
    else if from == |s| then None
    else IndexOfFrom(s, pat, from + 1)
  }

  /** `s.indexOf(pat)`, as an option instead of -1. */
  function IndexOf(s: string, pat: string): (r: Option<nat>)
    ensures r.Some? ==> OccursAt(s, pat, r.value)
    ensures forall j :: 0 <= j && (r.None? || j < r.value) ==> !OccursAt(s, pat, j)
  {
    IndexOfFrom(s, pat, 0)
  }

  /** `s.replace(pat, rep)` with a string pattern: only the first occurrence is replaced. */
  function ReplaceFirst(s: string, pat: string, rep: string): (r: string)
    ensures IndexOf(s, pat).None? ==> r == s
    ensures IndexOf(s, pat).Some? ==>
              var i := IndexOf(s, pat).value;
              r == s[..i] + rep + s[i + |pat|..]
  {
    match IndexOf(s, pat)
    case None => s
    case Some(i) => s[..i] + rep + s[i + |pat|..]
  }

  /** Replacing a pattern that the string starts with removes exactly that prefix. */
  lemma ReplaceLeadingPattern(pat: string, rest: string)
    ensures ReplaceFirst(pat + rest, pat, "") == rest
  {
    assert OccursAt(pat + rest, pat, 0);
    var i := IndexOf(pat + rest, pat).value;
    assert i == 0;
    assert (pat + rest)[|pat|..] == rest;
  }

  /** Index of the first `c` in `s` at or after `from`. */
  function IndexOfCharFrom(s: string, c: char, from: nat): (r: Option<nat>)
    requires from <= |s|
    ensures r.Some? ==> from <= r.value < |s| && s[r.value] == c
    ensures forall j :: from <= j < |s| && (r.None? || j < r.value) ==> s[j] != c
    decreases |s| - from
  {
    if from == |s| then None
    else if s[from] == c then Some(from)
    else IndexOfCharFrom(s, c, from + 1)
  }

  /** `s.indexOf(c)` for a single character. */
  function IndexOfChar(s: string, c: char): (r: Option<nat>)
    ensures r.Some? ==> r.value < |s| && s[r.value] == c
    ensures forall j :: 0 <= j < |s| && (r.None? || j < r.value) ==> s[j] != c
  {
    IndexOfCharFrom(s, c, 0)
  }

  /** Index of the last `c` in `s`. */
  function LastIndexOfChar(s: string, c: char): (r: Option<nat>)
    ensures r.Some? ==> r.value < |s| && s[r.value] == c
    ensures forall j :: 0 <= j < |s| && (r.None? || r.value < j) ==> s[j] != c
  {
    if s == [] then None
    else if s[|s| - 1] == c then Some(|s| - 1)
    else LastIndexOfChar(s[..|s| - 1], c)
  }

  function DigitChar(d: nat): char
    requires d < 10
  {
    "0123456789"[d]
  }

  /** Decimal digits of `n`, as JavaScript prints a non-negative integer. */
  function NatToString(n: nat): (r: string)
    ensures |r| >= 1
    ensures n >= 10 ==> |r| >= 2
    ensures forall i :: 0 <= i < |r| ==> '0' <= r[i] <= '9'
  {
    if n < 10 then [DigitChar(n)] else NatToString(n / 10) + [DigitChar(n % 10)]
  }

  /** JavaScript's string form of an integer-valued number. */
  function IntToString(i: int): (r: string)
    ensures |r| >= 1
    ensures i >= 0 <==> r[0] != '-'
  {
    if i >= 0 then NatToString(i) else "-" + NatToString(-i)
  }

  lemma {:induction false} NatToStringInjective(a: nat, b: nat)
    requires NatToString(a) == NatToString(b)
    ensures a == b
    decreases a
  {
    var sa, sb := NatToString(a), NatToString(b);
    if a < 10 && b < 10 {
      assert sa[0] == sb[0];
    } else if a >= 10 && b >= 10 {
      assert sa[|sa| - 1] == sb[|sb| - 1];
      assert a % 10 == b % 10;
      assert sa[..|sa| - 1] == NatToString(a / 10);
      assert sb[..|sb| - 1] == NatToString(b / 10);
      NatToStringInjective(a / 10, b / 10);
    }
  }

  /** Different integers print differently. */
  lemma IntToStringInjective(a: int, b: int)
    requires IntToString(a) == IntToString(b)
    ensures a == b
  {
    var sa, sb := IntToString(a), IntToString(b);
    if a >= 0 && b >= 0 {
      assert sa == NatToString(a) && sb == NatToString(b);
      NatToStringInjective(a, b);
    } else if a < 0 && b < 0 {
      assert sa == "-" + NatToString(-a) && sb == "-" + NatToString(-b);
      assert sa[1..] == NatToString(-a);
      assert sb[1..] == NatToString(-b);
      NatToStringInjective(-a, -b);
    }
  }

  predicate IsHexDigit(c: char) {
    ('0' <= c <= '9') || ('a' <= c <= 'f') || ('A' <= c <= 'F')
  }

  /** `mongoose.isValidObjectId` on a string parameter: 24 hexadecimal digits. */
  predicate IsValidObjectId(s: string) {
    |s| == 24 && forall i :: 0 <= i < |s| ==> IsHexDigit(s[i])
  }
}
