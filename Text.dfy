/**
 * The string operations the item handlers rely on, restricted to ASCII:
 * `str.isdigit`, `int` of a digit string, `str` of an integer, `str.strip`,
 * `str.lower` and the substring test `sub in s`.
 */
module Text {

  // ---------- digits: str.isdigit, int(...) and str(...) ----------

  predicate IsDigit(c: char) {
    '0' <= c <= '9'
  }

  /** `s.isdigit()`: false for the empty string, else true when every character is a digit. */
  predicate AllDigits(s: string) {
    |s| > 0 && forall i :: 0 <= i < |s| ==> IsDigit(s[i])
  }

  function DigitValue(c: char): (d: nat)
    requires IsDigit(c)
    ensures d < 10
  {
    c as int - '0' as int
  }

  function DigitChar(d: nat): (c: char)
    requires d < 10
    ensures IsDigit(c) && DigitValue(c) == d
  {
    ('0' as int + d) as char
  }

  function Pow10(k: nat): (p: nat)
    ensures p >= 1
  {
    if k == 0 then 1 else 10 * Pow10(k - 1)
  }

  /** `int(s)` for a string of decimal digits, read most significant digit first. */
  function ParseNat(s: string): (n: nat)
    requires forall i :: 0 <= i < |s| ==> IsDigit(s[i])
    ensures n < Pow10(|s|)
    decreases |s|
  {
    if s == [] then 0 else 10 * ParseNat(s[..|s| - 1]) + DigitValue(s[|s| - 1])
  }

  /** Leading zeros do not change the value: `int("007") == 7`. */
  lemma {:induction false} ParseNatLeadingZero(s: string)
    requires forall i :: 0 <= i < |s| ==> IsDigit(s[i])
    ensures ParseNat("0" + s) == ParseNat(s)
    decreases |s|
  {
    if s != [] {
      var t := "0" + s;
      assert t[..|t| - 1] == "0" + s[..|s| - 1];
      ParseNatLeadingZero(s[..|s| - 1]);
    }
  }

  /** `str(n)` for a natural number: the canonical decimal form, which `int` reads back. */
  function NatToString(n: nat): (r: string)
    ensures AllDigits(r) && ParseNat(r) == n
    ensures r[0] == '0' ==> r == "0"
    decreases n
  {
    if n < 10 then [DigitChar(n)]
    else
      var front := NatToString(n / 10);
      var r := front + [DigitChar(n % 10)];
      assert r[..|r| - 1] == front;
      r
  }

  /** `str(x)` for an integer: a minus sign, then the digits of the magnitude. */
  function IntToString(x: int): (r: string)
    ensures |r| > 0 && (r[0] == '-' <==> x < 0)
    ensures x >= 0 ==> AllDigits(r) && ParseNat(r) == x
    ensures x < 0 ==> AllDigits(r[1..]) && ParseNat(r[1..]) == -x
  {
    if x < 0 then
      var r := "-" + NatToString(-x);
      assert r[1..] == NatToString(-x);
      r
    else NatToString(x)
  }

  // ---------- str.lower ----------

  predicate IsUpper(c: char) {
    'A' <= c <= 'Z'
  }

  function LowerChar(c: char): (l: char)
    ensures !IsUpper(l)
    ensures IsUpper(c) ==> l as int == c as int + 32
    ensures !IsUpper(c) ==> l == c
  {
    if IsUpper(c) then (c as int + 32) as char else c
  }

  /** `s.lower()`: every ASCII capital replaced by its small letter, nothing else changed. */
  function ToLower(s: string): (r: string)
    ensures |r| == |s|
    ensures forall i :: 0 <= i < |s| ==> r[i] == LowerChar(s[i])
  {
    if s == [] then [] else [LowerChar(s[0])] + ToLower(s[1..])
  }

  // ---------- str.strip ----------

  /** The ASCII characters `str.isspace` accepts: tab, line feed, vertical tab, form feed,
      carriage return, the four separators 0x1C..0x1F, and space. */
  predicate IsSpace(c: char) {
    var k := c as int;
    k == 32 || 9 <= k <= 13 || 28 <= k <= 31
  }

  /** `s.lstrip()`: drop the leading white space. */
  function StripLeft(s: string): string
    decreases |s|
  {
    if s != [] && IsSpace(s[0]) then StripLeft(s[1..]) else s
  }

  /** `s.rstrip()`: drop the trailing white space. */
  function StripRight(s: string): string
    decreases |s|
  {
    if s != [] && IsSpace(s[|s| - 1]) then StripRight(s[..|s| - 1]) else s
  }

  /** `s.strip()` */
  function Strip(s: string): string {
    StripRight(StripLeft(s))
  }

  /** `lstrip` leaves a suffix of `s`, drops only white space, and leaves no
      white space at the front. */
  lemma {:induction false} StripLeftSpec(s: string)
    ensures |StripLeft(s)| <= |s| && StripLeft(s) == s[|s| - |StripLeft(s)|..]
    ensures forall i :: 0 <= i < |s| - |StripLeft(s)| ==> IsSpace(s[i])
    ensures StripLeft(s) != [] ==> !IsSpace(StripLeft(s)[0])
    decreases |s|
  {
    if s != [] && IsSpace(s[0]) {
      StripLeftSpec(s[1..]);
      forall i | 1 <= i < |s| - |StripLeft(s)| ensures IsSpace(s[i]) {
        assert s[i] == s[1..][i - 1];
      }
    }
  }

  /** `rstrip` leaves a prefix of `s`, drops only white space, and leaves no
      white space at the back. */
  lemma {:induction false} StripRightSpec(s: string)
    ensures |StripRight(s)| <= |s| && StripRight(s) == s[..|StripRight(s)|]
    ensures forall i :: |StripRight(s)| <= i < |s| ==> IsSpace(s[i])
    ensures StripRight(s) != [] ==> !IsSpace(StripRight(s)[|StripRight(s)| - 1])
    decreases |s|
  {
    if s != [] && IsSpace(s[|s| - 1]) {
      StripRightSpec(s[..|s| - 1]);
    }
  }

  /** `strip` gives the empty string exactly when `s` is all white space, and
      otherwise a string that starts and ends with something else. */
  lemma StripSpec(s: string)
    ensures Strip(s) == [] <==> forall i :: 0 <= i < |s| ==> IsSpace(s[i])
    ensures Strip(s) != [] ==> !IsSpace(Strip(s)[0]) && !IsSpace(Strip(s)[|Strip(s)| - 1])
  {
    var left := StripLeft(s);
    StripLeftSpec(s);
    StripRightSpec(left);
    var n := |s| - |left|;
    forall i | n <= i < |s| ensures s[i] == left[i - n] {
    }
    if Strip(s) != [] {
      assert Strip(s)[0] == left[0];
    }
  }

  // ---------- the substring test `sub in s` ----------

  predicate OccursAt(sub: string, s: string, k: nat) {
    k + |sub| <= |s| && s[k..k + |sub|] == sub
  }

  /** `sub in s`: some window of `s` equals `sub` (always true for an empty `sub`). */
  predicate Contains(sub: string, s: string) {
    exists k: nat :: k <= |s| && OccursAt(sub, s, k)
  }

  /** The characters of `t` equal those of `s` from position `k` on, ignoring case. */
  predicate EqualIgnoringCaseAt(t: string, s: string, k: nat) {
    k + |t| <= |s| && forall i :: 0 <= i < |t| ==> LowerChar(s[k + i]) == LowerChar(t[i])
  }

  lemma WindowIgnoringCase(t: string, s: string, k: nat)
    ensures OccursAt(ToLower(t), ToLower(s), k) <==> EqualIgnoringCaseAt(t, s, k)
  {
    if k + |t| <= |s| {
      var w := ToLower(s)[k..k + |t|];
      assert forall i :: 0 <= i < |t| ==> w[i] == LowerChar(s[k + i]);
      if EqualIgnoringCaseAt(t, s, k) {
        assert w == ToLower(t);
      }
    }
  }

  /** `t.lower() in s.lower()` holds exactly when some window of `s` equals `t`
      character by character, ignoring case. */
  lemma ContainsIgnoringCase(t: string, s: string)
    ensures Contains(ToLower(t), ToLower(s)) <==> exists k: nat :: k <= |s| && EqualIgnoringCaseAt(t, s, k)
  {
    forall k: nat {
      WindowIgnoringCase(t, s, k);
    }
  }
}
