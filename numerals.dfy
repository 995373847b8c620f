/** The two JavaScript number/string conversions the parser relies on:
    `Number.prototype.toString(radix)` with `padStart`, and `parseInt(string, radix)`. */
module Numerals {
  import opened Outcomes

  /** The value parseInt gives a character: '0'-'9' are 0-9, letters of either case are 10-35,
      anything else is 36 (a digit in no radix). */
  function DigitValue(c: char): (d: nat)
    ensures d <= 36
  {
    if '0' <= c <= '9' then c as int - '0' as int
    else if 'a' <= c <= 'z' then c as int - 'a' as int + 10
    else if 'A' <= c <= 'Z' then c as int - 'A' as int + 10
    else 36
  }

  /** The lower-case digit toString(radix) emits for d. */
  function DigitChar(d: nat): (c: char)
    requires d < 36
    ensures DigitValue(c) == d
    ensures c != '-' && c != '+' && (d < 16 ==> c != 'x' && c != 'X')
    ensures !('A' <= c <= 'Z')
  {
    if d < 10 then ('0' as int + d) as char else ('a' as int + d - 10) as char
  }

  predicate AllDigits(s: string, radix: nat) {
    forall i :: 0 <= i < |s| ==> DigitValue(s[i]) < radix
  }

  /** Value of a digit string, most significant digit first. */
  function ValueOf(s: string, radix: nat): nat
    requires AllDigits(s, radix)
  {
    if s == [] then 0 else ValueOf(s[..|s| - 1], radix) * radix + DigitValue(s[|s| - 1])
  }

  /** n.toString(radix) for a non-negative integer and the two radices used here:
      lower-case digits, no sign, and no leading zero except for 0 itself. */
  function ToRadix(n: nat, radix: nat): (s: string)
    requires radix == 10 || radix == 16
    ensures 1 <= |s| && AllDigits(s, radix)
    ensures forall i :: 0 <= i < |s| ==> !('A' <= s[i] <= 'Z') && s[i] != 'x' && s[i] != ':'
    ensures (s[0] == '0') == (n == 0)
    decreases n
  {
    if n < radix then [DigitChar(n)]
    else ToRadix(n / radix, radix) + [DigitChar(n % radix)]
  }

  /** n.toString(16). */
  function ToHex(n: nat): string {
    ToRadix(n, 16)
  }

  /** s.padStart(len, '0'). */
  function PadStart(s: string, len: nat): (r: string)
    ensures |r| == if |s| >= len then |s| else len
    ensures r[|r| - |s|..] == s
    ensures forall i :: 0 <= i < |r| - |s| ==> r[i] == '0'
  {
    if |s| >= len then s else seq(len - |s|, _ => '0') + s
  }

  /** Number of leading characters of s that are digits in the radix. */
  function DigitRun(s: string, radix: nat): (k: nat)
    ensures k <= |s| && AllDigits(s[..k], radix)
    ensures k < |s| ==> DigitValue(s[k]) >= radix
  {
    if s == [] || DigitValue(s[0]) >= radix then 0
    else
      var k := 1 + DigitRun(s[1..], radix);
      assert forall i :: 1 <= i < k ==> s[..k][i] == s[1..][..k - 1][i - 1];
      k
  }

  /** parseInt(s, radix) for the radices used here: an optional sign, for radix 16 an optional
      "0x"/"0X", then the longest run of digits. None is NaN (no digit at all).
      Leading white space, which parseInt skips, is not modelled. */
  function ParseInt(s: string, radix: nat): (r: Option<int>)
    requires radix == 10 || radix == 16
    ensures r.None? <==> DigitRun(Unprefixed(s, radix), radix) == 0
  {
    var body := Unprefixed(s, radix);
    var k := DigitRun(body, radix);
    if k == 0 then None
    else
      var magnitude: int := ValueOf(body[..k], radix);
      Some(if |s| > 0 && s[0] == '-' then -magnitude else magnitude)
  }

  /** What parseInt scans for digits once the sign and the hexadecimal prefix are stripped. */
  function Unprefixed(s: string, radix: nat): string {
    var unsigned := if |s| > 0 && (s[0] == '-' || s[0] == '+') then s[1..] else s;
    if radix == 16 && |unsigned| >= 2 && unsigned[0] == '0' && (unsigned[1] == 'x' || unsigned[1] == 'X')
    then unsigned[2..]
    else unsigned
  }

  /** toString(radix) and the digit reader are inverse. */
  lemma {:induction false} ValueOfToRadix(n: nat, radix: nat)
    requires radix == 10 || radix == 16
    ensures ValueOf(ToRadix(n, radix), radix) == n
    decreases n
  {
    var s := ToRadix(n, radix);
    if n >= radix {
      var q := n / radix;
      assert s == ToRadix(q, radix) + [DigitChar(n % radix)];
      assert s[..|s| - 1] == ToRadix(q, radix);
      assert DigitValue(s[|s| - 1]) == n % radix;
      ValueOfToRadix(q, radix);
      assert ValueOf(s, radix) == q * radix + n % radix;
    } else {
      assert s[..|s| - 1] == [];
    }
  }

  /** Leading zeros do not change a digit string's value. */
  lemma {:induction false} LeadingZeros(z: string, s: string, radix: nat)
    requires 2 <= radix && AllDigits(s, radix)
    requires forall i :: 0 <= i < |z| ==> z[i] == '0'
    ensures AllDigits(z + s, radix) && ValueOf(z + s, radix) == ValueOf(s, radix)
    decreases |z| + |s|
  {
    var t := z + s;
    if s == [] {
      assert t == z;
      if z != [] {
        assert t[..|t| - 1] == z[..|z| - 1];
        LeadingZeros(z[..|z| - 1], [], radix);
        assert z[..|z| - 1] + [] == z[..|z| - 1];
      }
    } else {
      var s' := s[..|s| - 1];
      assert t[..|t| - 1] == z + s';
      LeadingZeros(z, s', radix);
    }
  }

  /** parseInt reads a string made only of digits back to its value. */
  lemma ParseIntAllDigits(s: string, radix: nat)
    requires radix == 10 || radix == 16
    requires 1 <= |s| && AllDigits(s, radix)
    requires |s| >= 2 ==> s[1] != 'x' && s[1] != 'X'
    ensures ParseInt(s, radix) == Some(ValueOf(s, radix))
  {
    assert DigitValue(s[0]) < radix;
    assert Unprefixed(s, radix) == s;
    var k := DigitRun(s, radix);
    assert k == |s|;
    assert s[..k] == s;
  }

  /** The six-digit rendering `n.toString(16).padStart(6, '0')` parses back to n. */
  lemma HexRoundTrip(n: nat)
    ensures ParseInt(PadStart(ToHex(n), 6), 16) == Some(n)
  {
    var h := ToHex(n);
    var p := PadStart(h, 6);
    var z := p[..|p| - |h|];
    assert p == z + h;
    LeadingZeros(z, h, 16);
    ValueOfToRadix(n, 16);
    assert |p| >= 2 ==> p[1] != 'x' && p[1] != 'X' by {
      if |p| >= 2 && |z| < 2 {
        assert p[1] == h[1 - |z|];
      }
    }
    ParseIntAllDigits(p, 16);
  }
}
