/** Character and string helpers used by the model: ASCII decimal digits,
    Python's `s.replace(ch, "")`, `str.isdigit()`, and the substring test
    `sub in s`. */
module Strings {

  predicate IsDigit(ch: char) { '0' <= ch <= '9' }

  /** Every character of s is an ASCII decimal digit (true of the empty string). */
  predicate AllDigits(s: string) { forall ch :: ch in s ==> IsDigit(ch) }

  /** Python's `s.isdigit()` on ASCII text: at least one character, all of them digits. */
  predicate IsDigitString(s: string) { s != "" && AllDigits(s) }

  function DigitValue(ch: char): (d: nat)
    requires IsDigit(ch)
    ensures d < 10
  {
    ch as int - '0' as int
  }

  function DigitChar(d: nat): (ch: char)
    requires d < 10
    ensures IsDigit(ch) && DigitValue(ch) == d
  {
    ('0' as int + d) as char
  }

  function Pow10(n: nat): (p: nat)
    ensures p >= 1
  {
    if n == 0 then 1 else 10 * Pow10(n - 1)
  }

  lemma AllDigitsPrefix(s: string, k: nat)
    requires AllDigits(s) && k <= |s|
    ensures AllDigits(s[..k])
  {
    forall ch | ch in s[..k] ensures IsDigit(ch) {
      var i :| 0 <= i < k && s[..k][i] == ch;
      assert s[i] == ch;
    }
  }

  lemma AllDigitsSplit(s: string, k: nat)
    requires AllDigits(s) && k <= |s|
    ensures AllDigits(s[..k]) && AllDigits(s[k..])
  {
    AllDigitsPrefix(s, k);
    forall ch | ch in s[k..] ensures IsDigit(ch) {
      var i :| 0 <= i < |s| - k && s[k..][i] == ch;
      assert s[k + i] == ch;
    }
  }

  /** The number a string of decimal digits denotes, most significant digit
      first; the empty string denotes 0. */
  function DigitsValue(s: string): nat
    requires AllDigits(s)
    decreases |s|
  {
    if s == "" then 0
    else
      AllDigitsPrefix(s, |s| - 1);
      10 * DigitsValue(s[..|s| - 1]) + DigitValue(s[|s| - 1])
  }

  lemma AllDigitsAppend(a: string, b: string)
    requires AllDigits(a) && AllDigits(b)
    ensures AllDigits(a + b)
  {
    forall ch | ch in a + b ensures IsDigit(ch) {
      var i :| 0 <= i < |a + b| && (a + b)[i] == ch;
      if i < |a| { assert a[i] == ch; } else { assert b[i - |a|] == ch; }
    }
  }

  /** Appending digits shifts the value of the prefix left by one decimal
      place per appended digit. */
  lemma {:induction false} DigitsValueAppend(a: string, b: string)
    requires AllDigits(a) && AllDigits(b)
    ensures AllDigits(a + b)
    ensures DigitsValue(a + b) == DigitsValue(a) * Pow10(|b|) + DigitsValue(b)
    decreases |b|
  {
    AllDigitsAppend(a, b);
    if b == "" {
      assert a + b == a;
    } else {
      var b' := b[..|b| - 1];
      AllDigitsPrefix(b, |b| - 1);
      assert (a + b)[..|a + b| - 1] == a + b';
      assert (a + b)[|a + b| - 1] == b[|b| - 1];
      DigitsValueAppend(a, b');
      var x, y, p, z := DigitsValue(a), DigitsValue(b'), Pow10(|b'|), DigitValue(b[|b| - 1]);
      assert DigitsValue(a + b) == 10 * DigitsValue(a + b') + z;
      assert DigitsValue(b) == 10 * y + z;
      assert Pow10(|b|) == 10 * p;
      ShiftDistributes(x, y, p, z);
    }
  }

  lemma ShiftDistributes(x: int, y: int, p: int, z: int)
    ensures 10 * (x * p + y) + z == x * (10 * p) + (10 * y + z)
  {
    assert 10 * (x * p) == x * (10 * p);
  }

  /** A string of k zeros. */
  function Zeros(k: nat): (s: string)
    ensures |s| == k && AllDigits(s)
  {
    seq(k, _ => '0')
  }

  lemma {:induction false} ZerosValue(k: nat)
    ensures DigitsValue(Zeros(k)) == 0
  {
    if k > 0 {
      assert Zeros(k)[..k - 1] == Zeros(k - 1);
      ZerosValue(k - 1);
    }
  }

  /** Leading zeros do not change the value of a digit string. */
  lemma LeadingZeros(k: nat, s: string)
    requires AllDigits(s)
    ensures AllDigits(Zeros(k) + s) && DigitsValue(Zeros(k) + s) == DigitsValue(s)
  {
    DigitsValueAppend(Zeros(k), s);
    ZerosValue(k);
  }

  /** The decimal digits of n, most significant first, with no leading zero. */
  function NatToDigits(n: nat): (s: string)
    ensures IsDigitString(s) && DigitsValue(s) == n
    ensures |s| == 1 <==> n < 10
    decreases n
  {
    if n < 10 then
      [DigitChar(n)]
    else
      var front, last := NatToDigits(n / 10), DigitChar(n % 10);
      assert (front + [last])[..|front + [last]| - 1] == front;
      front + [last]
  }

  /** Python's `s.replace(ch, "")`: s with every occurrence of ch dropped. */
  function Remove(s: string, ch: char): (r: string)
    ensures forall c :: c in r <==> c in s && c != ch
  {
    if s == "" then ""
    else
      assert s == [s[0]] + s[1..];
      (if s[0] == ch then "" else [s[0]]) + Remove(s[1..], ch)
  }

  lemma {:induction false} RemoveAppend(a: string, b: string, ch: char)
    ensures Remove(a + b, ch) == Remove(a, ch) + Remove(b, ch)
  {
    if a != "" {
      assert (a + b)[0] == a[0] && (a + b)[1..] == a[1..] + b;
      RemoveAppend(a[1..], b, ch);
    } else {
      assert a + b == b;
    }
  }

  /** Removing a character that does not occur leaves the string as it is. */
  lemma {:induction false} RemoveAbsent(s: string, ch: char)
    requires ch !in s
    ensures Remove(s, ch) == s
  {
    if s != "" {
      assert s == [s[0]] + s[1..];
      RemoveAbsent(s[1..], ch);
    }
  }

  /** Position of the first ch in s, or |s| when ch does not occur. */
  function IndexOf(s: string, ch: char): (k: nat)
    ensures k <= |s|
    ensures k < |s| ==> s[k] == ch
    ensures ch !in s[..k]
    ensures k < |s| <==> ch in s
  {
    if s == "" then 0
    else if s[0] == ch then 0
    else
      var k := 1 + IndexOf(s[1..], ch);
      assert s[..k] == [s[0]] + s[1..][..k - 1];
      k
  }

  /** sub occurs in s starting at position i. */
  predicate OccursAt(s: string, sub: string, i: int) {
    0 <= i && i + |sub| <= |s| && s[i..i + |sub|] == sub
  }

  /** Python's `sub in s`: a plain substring test. */
  function Contains(s: string, sub: string): (b: bool)
    ensures b <==> exists i :: OccursAt(s, sub, i)
    decreases |s|
  {
    if |s| < |sub| then
      false
    else if s[..|sub|] == sub then
      assert OccursAt(s, sub, 0);
      true
    else
      var b := Contains(s[1..], sub);
      assert forall i :: OccursAt(s[1..], sub, i) <==> OccursAt(s, sub, i + 1) by {
        forall i ensures OccursAt(s[1..], sub, i) <==> OccursAt(s, sub, i + 1) {
          if 0 <= i && i + |sub| <= |s| - 1 {
            assert s[1..][i..i + |sub|] == s[i + 1..i + 1 + |sub|];
          }
        }
      }
      assert !OccursAt(s, sub, 0);
      assert forall i :: OccursAt(s, sub, i) ==> OccursAt(s[1..], sub, i - 1);
      b
  }

  /** A string that contains sub holds sub's first character. */
  lemma ContainsFirstChar(s: string, sub: string)
    ensures sub != [] && Contains(s, sub) ==> sub[0] in s
  {
    if sub != [] && Contains(s, sub) {
      var i :| OccursAt(s, sub, i);
      assert s[i..i + |sub|][0] == s[i];
    }
  }
}
