/**
 * The few java.lang.String and java.lang.Integer operations the two
 * components rely on: `contains`, `equalsIgnoreCase` and the decimal
 * rendering used by string concatenation of an `int`.
 */
module Strings {
  import opened Wrappers

  // ---------------------------------------------------------------------
  // String.contains
  // ---------------------------------------------------------------------

  /** `sub` occurs in `s` starting at position `i`. */
  predicate OccursAt(s: string, sub: string, i: nat) {
    i + |sub| <= |s| && s[i..i + |sub|] == sub
  }

  /** Java's `s.contains(sub)`: `sub` occurs somewhere in `s`. */
  predicate Contains(s: string, sub: string) {
    exists i :: 0 <= i <= |s| - |sub| && OccursAt(s, sub, i)
  }

  /**
   * Java's `s.indexOf(sub)`, in terms of which `contains` is implemented:
   * the start positions are tried from left to right and the first match is
   * returned.
   */
  function IndexOfSubstring(s: string, sub: string): (r: Option<nat>)
    ensures r.Some? ==> OccursAt(s, sub, r.value)
    ensures r.Some? ==> forall j :: 0 <= j < r.value ==> !OccursAt(s, sub, j)
    ensures r.None? <==> !Contains(s, sub)
    decreases |s|
  {
    if |sub| > |s| then None
    else if s[..|sub|] == sub then
      assert OccursAt(s, sub, 0);
      Some(0)
    else
      var r := IndexOfSubstring(s[1..], sub);
      assert !OccursAt(s, sub, 0);
      ContainsTail(s, sub);
      OccursAtTail(s, sub);
      match r
      case None => None
      case Some(k) => Some(k + 1)
  }

  /** The occurrences in `s[1..]` are those in `s` after position 0, shifted by one. */
  lemma OccursAtTail(s: string, sub: string)
    requires |s| > 0
    ensures forall j: nat :: j >= 1 ==> (OccursAt(s, sub, j) <==> OccursAt(s[1..], sub, j - 1))
  {
  }

  /** Without a match at position 0, `s` contains `sub` exactly when its tail does. */
  lemma ContainsTail(s: string, sub: string)
    requires |s| > 0 && !OccursAt(s, sub, 0)
    ensures Contains(s, sub) <==> Contains(s[1..], sub)
  {
    OccursAtTail(s, sub);
    if Contains(s, sub) {
      var i :| 0 <= i <= |s| - |sub| && OccursAt(s, sub, i);
      assert OccursAt(s[1..], sub, i - 1);
    }
    if Contains(s[1..], sub) {
      var j :| 0 <= j <= |s[1..]| - |sub| && OccursAt(s[1..], sub, j);
      assert OccursAt(s, sub, j + 1);
    }
  }

  /** A non-empty `sub` whose first character never appears in `s` is not contained in it. */
  lemma NotContainsFirstChar(s: string, sub: string)
    requires |sub| > 0 && sub[0] !in s
    ensures !Contains(s, sub)
  {
  }

  /** An occurrence of `sub` starts with `sub`'s first two characters. */
  lemma OccurrenceHead(s: string, sub: string, i: nat)
    requires |sub| >= 2 && OccursAt(s, sub, i)
    ensures i < |s| - 1 && s[i] == sub[0] && s[i + 1] == sub[1]
  {
  }

  /** `sub` is not contained in `s` when its first two characters never appear side by side in `s`. */
  lemma NotContainsFirstPair(s: string, sub: string)
    requires |sub| >= 2
    requires forall i :: 0 <= i < |s| - 1 ==> !(s[i] == sub[0] && s[i + 1] == sub[1])
    ensures !Contains(s, sub)
  {
    if Contains(s, sub) {
      var i :| 0 <= i <= |s| - |sub| && OccursAt(s, sub, i);
      OccurrenceHead(s, sub, i);
    }
  }

  // ---------------------------------------------------------------------
  // String.equalsIgnoreCase
  // ---------------------------------------------------------------------

  /** Character.toUpperCase restricted to ASCII letters. */
  function UpperAscii(c: char): char {
    if 'a' <= c <= 'z' then (c as int - 32) as char else c
  }

  /** Character.toLowerCase restricted to ASCII letters. */
  function LowerAscii(c: char): char {
    if 'A' <= c <= 'Z' then (c as int + 32) as char else c
  }

  /**
   * Java's per-character test in `regionMatches(ignoreCase = true, ...)`:
   * equal, or equal after upper-casing, or equal after lower-casing the
   * upper-cased characters.
   */
  predicate CharEqualsIgnoreCase(a: char, b: char) {
    a == b
    || UpperAscii(a) == UpperAscii(b)
    || LowerAscii(UpperAscii(a)) == LowerAscii(UpperAscii(b))
  }

  /** Java's `a.equalsIgnoreCase(b)` (for a non-null `b`): same length, pairwise matching characters. */
  function EqualsIgnoreCase(a: string, b: string): bool
    decreases |a|
  {
    if |a| != |b| then false
    else if |a| == 0 then true
    else CharEqualsIgnoreCase(a[0], b[0]) && EqualsIgnoreCase(a[1..], b[1..])
  }

  /** The Java algorithm agrees with comparing the lower-cased strings position by position. */
  lemma {:induction false} EqualsIgnoreCaseIff(a: string, b: string)
    ensures EqualsIgnoreCase(a, b)
        <==> |a| == |b| && forall i :: 0 <= i < |a| ==> LowerAscii(a[i]) == LowerAscii(b[i])
    decreases |a|
  {
    if |a| == |b| && |a| > 0 {
      EqualsIgnoreCaseIff(a[1..], b[1..]);
      assert forall i :: 1 <= i < |a| ==> a[1..][i - 1] == a[i] && b[1..][i - 1] == b[i];
    }
  }

  /** `s` spells t-r-u-e in any mix of cases. */
  predicate SpellsTrue(s: string) {
    |s| == 4 && s[0] in "tT" && s[1] in "rR" && s[2] in "uU" && s[3] in "eE"
  }

  /** A string equals "true" ignoring case exactly when it spells t-r-u-e in any mix of cases. */
  lemma EqualsIgnoreCaseTrue(s: string)
    ensures EqualsIgnoreCase(s, "true") <==> SpellsTrue(s)
  {
    EqualsIgnoreCaseIff(s, "true");
  }

  // ---------------------------------------------------------------------
  // Integer.toString (what `"..." + i` appends for an int i)
  // ---------------------------------------------------------------------

  predicate IsDigit(c: char) {
    '0' <= c <= '9'
  }

  predicate AllDigits(s: string) {
    forall i :: 0 <= i < |s| ==> IsDigit(s[i])
  }

  function DigitChar(d: nat): (c: char)
    requires d < 10
    ensures IsDigit(c)
  {
    ('0' as int + d) as char
  }

  function DigitValue(c: char): (d: nat)
    requires IsDigit(c)
    ensures d < 10 && DigitChar(d) == c
  {
    c as int - '0' as int
  }

  /** Decimal digits of `n`, most significant first, without leading zeros. */
  function NatToDecimal(n: nat): (s: string)
    ensures |s| >= 1 && AllDigits(s)
    ensures |s| > 1 ==> s[0] != '0'
    decreases n
  {
    if n < 10 then [DigitChar(n)] else NatToDecimal(n / 10) + [DigitChar(n % 10)]
  }

  /** Java's decimal form of an integer: a '-' sign for negatives, then the digits of the magnitude. */
  function IntToDecimal(n: int): string {
    if n < 0 then "-" + NatToDecimal(-n) else NatToDecimal(n)
  }

  /** The value of a string of decimal digits (the inverse of `NatToDecimal`). */
  function ParseNat(s: string): nat
    requires AllDigits(s)
    decreases |s|
  {
    if |s| == 0 then 0 else ParseNat(s[..|s| - 1]) * 10 + DigitValue(s[|s| - 1])
  }

  /** An optionally '-'-signed run of decimal digits. */
  predicate IsDecimal(s: string) {
    |s| > 0
    && (s[0] == '-' ==> AllDigits(s[1..]))
    && (s[0] != '-' ==> AllDigits(s))
  }

  /** Reads back an optionally '-'-signed decimal. */
  function ParseInt(s: string): int
    requires IsDecimal(s)
  {
    if s[0] == '-' then 0 - ParseNat(s[1..]) else ParseNat(s)
  }

  lemma {:induction false} NatToDecimalRoundTrip(n: nat)
    ensures ParseNat(NatToDecimal(n)) == n
    decreases n
  {
    if n >= 10 {
      var s := NatToDecimal(n);
      NatToDecimalRoundTrip(n / 10);
      assert s[..|s| - 1] == NatToDecimal(n / 10);
    }
  }

  /** The rendered integer parses back to itself. */
  lemma IntToDecimalRoundTrip(n: int)
    ensures var s := IntToDecimal(n);
            IsDecimal(s) && (s[0] == '-' <==> n < 0) && ParseInt(s) == n
  {
    var s := IntToDecimal(n);
    if n < 0 {
      assert s[1..] == NatToDecimal(-n);
      NatToDecimalRoundTrip(-n);
    } else {
      NatToDecimalRoundTrip(n);
    }
  }

  /** Position of the first `c` in `s`, if any (String.indexOf). */
  function IndexOf(s: string, c: char): (r: Option<nat>)
    ensures r.Some? ==> r.value < |s| && s[r.value] == c && c !in s[..r.value]
    ensures r.None? ==> c !in s
    decreases |s|
  {
    if |s| == 0 then None
    else if s[0] == c then Some(0)
    else match IndexOf(s[1..], c)
      case None => None
      case Some(k) =>
        assert s[..k + 1] == [s[0]] + s[1..][..k];
        Some(k + 1)
  }

  /** The first `c` of `a + tail` is the head of `tail` when `a` holds no `c`. */
  lemma {:induction false} IndexOfAfterPrefix(a: string, c: char, tail: string)
    requires c !in a && |tail| > 0 && tail[0] == c
    ensures IndexOf(a + tail, c) == Some(|a|)
    decreases |a|
  {
    if |a| > 0 {
      assert (a + tail)[1..] == a[1..] + tail;
      assert a[0] != c;
      IndexOfAfterPrefix(a[1..], c, tail);
    }
  }
}
