/** The JavaScript string operations the integration relies on, over `seq<char>`:
    prefix and suffix tests, first-occurrence search and replacement
    (`String.prototype.replace` with a string pattern), `split("?")[0]`,
    `trim`, and the decimal rendering of integers in template literals. */
module Strings {

  import opened Wrappers

  /** `s.startsWith(p)` */
  predicate StartsWith(s: string, p: string) {
    |p| <= |s| && s[..|p|] == p
  }

  /** `s.endsWith(p)` */
  predicate EndsWith(s: string, p: string) {
    |p| <= |s| && s[|s| - |p|..] == p
  }

  /** `pat` occurs in `s` starting at index `i`. */
  predicate OccursAt(s: string, pat: string, i: nat) {
    i + |pat| <= |s| && s[i..i + |pat|] == pat
  }

  /** `s.includes(pat)` */
  predicate Contains(s: string, pat: string) {
    exists i: nat | i <= |s| :: OccursAt(s, pat, i)
  }

  /** The first index at or after `from` where `pat` occurs, if any. */
  function IndexFrom(s: string, pat: string, from: nat): (r: Option<nat>)
    requires from <= |s|
    ensures r.Some? ==> from <= r.value <= |s| && OccursAt(s, pat, r.value)
    ensures r.Some? ==> forall j: nat :: from <= j < r.value ==> !OccursAt(s, pat, j)
    ensures r.None? ==> forall j: nat :: from <= j <= |s| ==> !OccursAt(s, pat, j)
    decreases |s| - from
  {
    if OccursAt(s, pat, from) then Some(from)
    else if from == |s| then None
    else IndexFrom(s, pat, from + 1)
  }

  /** `s.indexOf(pat)`, with `None` for -1. */
  function IndexOf(s: string, pat: string): (r: Option<nat>)
    ensures r.Some? <==> Contains(s, pat)
    ensures r.Some? ==> OccursAt(s, pat, r.value)
    ensures r.Some? ==> forall j: nat :: j < r.value ==> !OccursAt(s, pat, j)
  {
    IndexFrom(s, pat, 0)
  }

  /** `s.replace(pat, rep)` with a string pattern: only the first occurrence
      of `pat` is replaced; an absent pattern leaves `s` as it is. */
  function ReplaceFirst(s: string, pat: string, rep: string): (r: string)
    ensures !Contains(s, pat) ==> r == s
    ensures Contains(s, pat) ==> |r| == |s| - |pat| + |rep|
  {
    match IndexOf(s, pat)
    case None => s
    case Some(i) => s[..i] + rep + s[i + |pat|..]
  }

  /** Replacing the first occurrence is characterised by where that
      occurrence is: whatever precedes it is kept, `rep` takes its place and
      whatever follows is kept, even if it holds further occurrences. */
  lemma ReplaceFirstAt(s: string, pat: string, rep: string, i: nat)
    requires OccursAt(s, pat, i)
    requires forall j: nat :: j < i ==> !OccursAt(s, pat, j)
    ensures ReplaceFirst(s, pat, rep) == s[..i] + rep + s[i + |pat|..]
  {
    var k := IndexOf(s, pat);
    assert k.Some?;
  }

  /** An occurrence survives putting text in front, shifted by its length. */
  lemma OccursAtAfterPrefix(a: string, b: string, pat: string, i: nat)
    requires OccursAt(b, pat, i)
    ensures OccursAt(a + b, pat, |a| + i)
  {
    assert (a + b)[|a| + i..|a| + i + |pat|] == b[i..i + |pat|];
  }

  /** An occurrence survives appending text. */
  lemma OccursAtBeforeSuffix(a: string, b: string, pat: string, i: nat)
    requires OccursAt(a, pat, i)
    ensures OccursAt(a + b, pat, i)
  {
    assert (a + b)[i..i + |pat|] == a[i..i + |pat|];
  }

  /** Three pieces put together: the first starts the whole, the second
      follows it and the third ends it. */
  lemma Pieces(a: string, b: string, c: string)
    ensures |a + b + c| == |a| + |b| + |c|
    ensures StartsWith(a + b + c, a)
    ensures OccursAt(a + b + c, b, |a|)
    ensures EndsWith(a + b + c, c)
  {
    var s := a + b + c;
    assert s[..|a|] == a;
    assert s[|a|..|a| + |b|] == b;
    assert s[|s| - |c|..] == c;
  }

  /** A prefix occurs at the start. */
  lemma StartsWithOccursAtZero(s: string, p: string)
    requires StartsWith(s, p)
    ensures OccursAt(s, p, 0)
  {
    assert s[0..|p|] == s[..|p|];
  }

  /** A string ends with what it was appended. */
  lemma EndsWithAppend(a: string, b: string)
    ensures EndsWith(a + b, b)
  {
    assert (a + b)[|a + b| - |b|..] == b;
  }

  /** The ending of an ending is an ending. */
  lemma EndsWithTransitive(s: string, t: string, e: string)
    requires EndsWith(s, t) && EndsWith(t, e)
    ensures EndsWith(s, e)
  {
    assert s[|s| - |e|..] == t[|t| - |e|..];
  }

  /** A pattern that starts the string is the one replaced. */
  lemma ReplaceFirstOfPrefix(s: string, pat: string, rep: string)
    requires StartsWith(s, pat)
    ensures ReplaceFirst(s, pat, rep) == rep + s[|pat|..]
  {
    assert OccursAt(s, pat, 0);
    ReplaceFirstAt(s, pat, rep, 0);
    assert s[..0] == [];
  }

  /** A single character does not occur before index `i`. */
  predicate NoCharBefore(s: string, c: char, i: nat)
    requires i <= |s|
  {
    forall j :: 0 <= j < i ==> s[j] != c
  }

  /** For a one-character pattern, occurrence is just equality of a character. */
  lemma OccursAtChar(s: string, c: char, j: nat)
    ensures OccursAt(s, [c], j) <==> j < |s| && s[j] == c
  {
    if j < |s| {
      assert s[j..j + 1] == [s[j]];
    }
  }

  /** Replacing the first occurrence of a single character. */
  lemma ReplaceFirstCharAt(s: string, c: char, rep: string, k: nat)
    requires k < |s| && s[k] == c && NoCharBefore(s, c, k)
    ensures ReplaceFirst(s, [c], rep) == s[..k] + rep + s[k + 1..]
  {
    OccursAtChar(s, c, k);
    forall j: nat | j < k ensures !OccursAt(s, [c], j) {
      OccursAtChar(s, c, j);
    }
    ReplaceFirstAt(s, [c], rep, k);
  }

  /** A character that does not occur is not replaced. */
  lemma ReplaceFirstCharAbsent(s: string, c: char, rep: string)
    requires NoCharBefore(s, c, |s|)
    ensures ReplaceFirst(s, [c], rep) == s
  {
    forall j: nat | j <= |s| ensures !OccursAt(s, [c], j) {
      OccursAtChar(s, c, j);
    }
  }

  /** The first position of a character `c` (or `|s|`): the same as
      `s.split(c)[0]` having that length. */
  function CharIndex(s: string, c: char): (r: nat)
    ensures r <= |s|
    ensures NoCharBefore(s, c, r)
    ensures r < |s| ==> s[r] == c
  {
    if s == [] then 0
    else if s[0] == c then 0
    else 1 + CharIndex(s[1..], c)
  }

  /** `s.split(c).at(0)`: the part before the first `c`, or all of `s`.
      `split` never returns an empty array, so this is always defined. */
  function BeforeFirst(s: string, c: char): (r: string)
    ensures StartsWith(s, r)
    ensures forall k :: 0 <= k < |r| ==> r[k] != c
    ensures |r| < |s| ==> s[|r|] == c
  {
    s[..CharIndex(s, c)]
  }

  /** ECMAScript `LineTerminator`. */
  predicate IsLineTerminator(c: char) {
    c == '\n' || c == '\r' || c == '\U{2028}' || c == '\U{2029}'
  }

  /** ECMAScript `WhiteSpace` (tab, vertical tab, form feed, BOM and the
      space separators of Unicode category Zs). */
  predicate IsWhiteSpace(c: char) {
    || c == '\t' || c == '\U{000B}' || c == '\U{000C}' || c == '\U{FEFF}'
    || c == ' ' || c == '\U{00A0}' || c == '\U{1680}'
    || ('\U{2000}' <= c <= '\U{200A}')
    || c == '\U{202F}' || c == '\U{205F}' || c == '\U{3000}'
  }

  /** What `String.prototype.trim` removes. */
  predicate IsTrimmable(c: char) {
    IsWhiteSpace(c) || IsLineTerminator(c)
  }

  predicate AllTrimmable(s: string) {
    forall k :: 0 <= k < |s| ==> IsTrimmable(s[k])
  }

  /** Number of trimmable characters at the start of `s`. */
  function LeadingTrimmable(s: string): (n: nat)
    ensures n <= |s|
    ensures AllTrimmable(s[..n])
    ensures n < |s| ==> !IsTrimmable(s[n])
  {
    if s == [] || !IsTrimmable(s[0]) then 0
    else
      var m := LeadingTrimmable(s[1..]);
      assert forall k :: 1 <= k < 1 + m ==> s[k] == s[1..][..m][k - 1];
      1 + m
  }

  /** Number of trimmable characters at the end of `s`. */
  function TrailingTrimmable(s: string): (n: nat)
    ensures n <= |s|
    ensures AllTrimmable(s[|s| - n..])
    ensures n < |s| ==> !IsTrimmable(s[|s| - n - 1])
  {
    if s == [] || !IsTrimmable(s[|s| - 1]) then 0
    else
      var init := s[..|s| - 1];
      var m := TrailingTrimmable(init);
      assert forall k :: |s| - 1 - m <= k < |s| - 1 ==> s[k] == init[|init| - m..][k - (|s| - 1 - m)];
      1 + m
  }

  /** `s.trim()`: `s` without its leading and trailing white space and
      line terminators. */
  function Trim(s: string): (r: string)
    ensures exists i, j :: 0 <= i <= j <= |s| && r == s[i..j]
                          && AllTrimmable(s[..i]) && AllTrimmable(s[j..])
    ensures r != [] ==> !IsTrimmable(r[0]) && !IsTrimmable(r[|r| - 1])
  {
    var i := LeadingTrimmable(s);
    if i == |s| then
      assert s[..|s|] == s && s[|s|..|s|] == [] && s[|s|..] == [];
      []
    else
      var j := |s| - TrailingTrimmable(s);
      s[i..j]
  }

  /** Trimming a string that is already trimmed changes nothing. */
  lemma TrimIdempotent(s: string)
    ensures Trim(Trim(s)) == Trim(s)
  {
    var t := Trim(s);
    if t != [] {
      assert LeadingTrimmable(t) == 0;
      assert TrailingTrimmable(t) == 0;
      assert t[0..|t|] == t;
    }
  }

  function DigitChar(d: nat): (c: char)
    requires d < 10
    ensures '0' <= c <= '9'
  {
    "0123456789"[d]
  }

  function DigitValue(c: char): (d: nat)
    requires '0' <= c <= '9'
  {
    (c as int - '0' as int) as nat
  }

  predicate AllDigits(s: string) {
    forall k :: 0 <= k < |s| ==> '0' <= s[k] <= '9'
  }

  /** The number a string of decimal digits denotes. */
  function DigitsValue(s: string): nat
    requires AllDigits(s)
  {
    if s == [] then 0
    else DigitsValue(s[..|s| - 1]) * 10 + DigitValue(s[|s| - 1])
  }

  /** Decimal digits without a superfluous leading zero. */
  predicate Decimal(d: string) {
    d != [] && AllDigits(d) && (d[0] == '0' ==> d == "0")
  }

  /** The decimal rendering of a natural number in a template literal:
      digits only, no superfluous leading zero. */
  function NatToString(n: nat): (r: string)
    ensures Decimal(r)
  {
    if n < 10 then [DigitChar(n)]
    else NatToString(n / 10) + [DigitChar(n % 10)]
  }

  /** Reading the rendered digits back gives the number. */
  lemma {:induction false} NatToStringValue(n: nat)
    ensures DigitsValue(NatToString(n)) == n
  {
    var r := NatToString(n);
    if n < 10 {
      assert r[..0] == [];
    } else {
      NatToStringValue(n / 10);
      assert r[..|r| - 1] == NatToString(n / 10);
    }
  }

  /** A sign put in front of digits can be read off again. */
  lemma SignedDigits(d: string)
    ensures ("-" + d)[0] == '-' && ("-" + d)[1..] == d
  {
  }

  /** `${n}` for an integer: a minus sign, then the digits of its
      magnitude, without a superfluous leading zero. */
  function IntToString(n: int): (r: string)
    ensures n < 0 <==> (r != [] && r[0] == '-')
    ensures n < 0 ==> Decimal(r[1..]) && DigitsValue(r[1..]) == -n
    ensures n >= 0 ==> Decimal(r) && DigitsValue(r) == n
  {
    if n < 0 then
      NatToStringValue(-n);
      SignedDigits(NatToString(-n));
      "-" + NatToString(-n)
    else
      NatToStringValue(n);
      NatToString(n)
  }
}
