/**
  Decimal text of integers as JavaScript renders them (`String(n)`, template
  literals), `String.prototype.padStart` with a one-character fill, and the
  parsing that reads such text back.
*/
module Decimal {
  import opened Wrappers

  predicate IsDigit(c: char) {
    '0' <= c <= '9'
  }

  predicate AllDigits(s: string) {
    forall i :: 0 <= i < |s| ==> IsDigit(s[i])
  }

  function DigitValue(c: char): nat
    requires IsDigit(c)
  {
    c as int - '0' as int
  }

  function DigitChar(d: nat): (c: char)
    requires d < 10
    ensures IsDigit(c) && DigitValue(c) == d
  {
    ('0' as int + d) as char
  }

  /** The digits of `n` without leading zeros; "0" for zero. */
  function NatToString(n: nat): (s: string)
    ensures 1 <= |s| && AllDigits(s)
    ensures s[0] == '0' <==> n == 0
    ensures |s| == 1 <==> n < 10
    decreases n
  {
    if n < 10 then [DigitChar(n)] else NatToString(n / 10) + [DigitChar(n % 10)]
  }

  /** `String(i)` for an integer: a minus sign, then the digits of its magnitude. */
  function IntToString(i: int): (s: string)
    ensures 1 <= |s|
    ensures s[0] == '-' <==> i < 0
    ensures i >= 0 ==> AllDigits(s)
    ensures |s| == 1 || s[if i < 0 then 1 else 0] != '0'
  {
    if i < 0 then "-" + NatToString(-i) else NatToString(i)
  }

  /** The value of a string of digits, most significant first; leading zeros allowed. */
  function DigitsValue(s: string): nat
    requires AllDigits(s)
  {
    if s == [] then 0 else DigitsValue(s[..|s| - 1]) * 10 + DigitValue(s[|s| - 1])
  }

  /** An optional minus sign followed by at least one digit. */
  function ParseInt(s: string): Option<int> {
    if |s| > 1 && s[0] == '-' && AllDigits(s[1..]) then Some(0 - DigitsValue(s[1..]))
    else if |s| > 0 && AllDigits(s) then Some(DigitsValue(s))
    else None
  }

  lemma {:induction false} NatToStringRoundTrip(n: nat)
    ensures DigitsValue(NatToString(n)) == n
  {
    if n >= 10 {
      var s := NatToString(n);
      assert s[..|s| - 1] == NatToString(n / 10);
      NatToStringRoundTrip(n / 10);
    }
  }

  /** Parsing the rendering of any integer gives that integer back. */
  lemma {:induction false} IntToStringRoundTrip(i: int)
    ensures ParseInt(IntToString(i)) == Some(i)
  {
    var s := IntToString(i);
    if i < 0 {
      var digits := NatToString(-i);
      assert s == "-" + digits;
      assert s[1..] == digits;
      NatToStringRoundTrip(-i);
      assert ParseInt(s) == Some(0 - DigitsValue(digits));
    } else {
      assert s == NatToString(i) && s[0] != '-';
      NatToStringRoundTrip(i);
      assert ParseInt(s) == Some(DigitsValue(s));
    }
  }

  function Repeat(c: char, k: nat): (r: string)
    ensures |r| == k
    ensures forall i :: 0 <= i < k ==> r[i] == c
  {
    if k == 0 then [] else [c] + Repeat(c, k - 1)
  }

  /**
    `s.padStart(width, fill)`: strings at least `width` long are returned as
    they are, shorter ones get copies of `fill` in front up to `width`.
  */
  function PadStart(s: string, width: nat, fill: char): (r: string)
    ensures |r| == if |s| >= width then |s| else width
    ensures r[|r| - |s|..] == s
    ensures forall i :: 0 <= i < |r| - |s| ==> r[i] == fill
  {
    if |s| >= width then s else Repeat(fill, width - |s|) + s
  }

  /**
    `v.toString().padStart(2, '0')` for a day or month number: exactly two
    characters, a leading '0' only below 10, and the same numeric value.
  */
  lemma {:induction false} TwoDigitPadding(v: nat)
    requires v < 100
    ensures |PadStart(NatToString(v), 2, '0')| == 2
    ensures PadStart(NatToString(v), 2, '0')[0] == '0' <==> v < 10
    ensures ParseInt(PadStart(NatToString(v), 2, '0')) == Some(v)
  {
    var s := NatToString(v);
    var r := PadStart(s, 2, '0');
    if v < 10 {
      assert r == ['0', DigitChar(v)];
      assert r[..1] == ['0'];
      assert DigitsValue(['0']) == 0 by {
        assert ['0'][..0] == [];
      }
      assert DigitsValue(r) == v;
    } else {
      assert NatToString(v / 10) == [DigitChar(v / 10)];
      assert r == [DigitChar(v / 10), DigitChar(v % 10)];
      assert r[..1] == [DigitChar(v / 10)];
      assert DigitsValue([DigitChar(v / 10)]) == v / 10 by {
        assert [DigitChar(v / 10)][..0] == [];
      }
      assert DigitsValue(r) == v;
    }
  }

  /** Padding any integer's rendering to two characters keeps its value. */
  lemma PaddedRoundTrip(v: int)
    ensures ParseInt(PadStart(IntToString(v), 2, '0')) == Some(v)
  {
    if 0 <= v < 10 {
      TwoDigitPadding(v);
    } else {
      IntToStringRoundTrip(v);
    }
  }
}
