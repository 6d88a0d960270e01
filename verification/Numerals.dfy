/** Numbers as text: toString(radix), parseInt, and the hexadecimal form of a byte string. */
module Numerals {
  import opened Bytes
  import opened Options

  const LOWER_DIGITS: string := "0123456789abcdef"

  /** The value of a digit, lower or upper case; None for any other character. */
  function DigitOf(c: char): (d: Option<nat>)
    ensures d.Some? ==> d.value < 16
  {
    if '0' <= c <= '9' then Some((c - '0') as nat)
    else if 'a' <= c <= 'f' then Some(10 + (c - 'a') as nat)
    else if 'A' <= c <= 'F' then Some(10 + (c - 'A') as nat)
    else None
  }

  predicate IsDigit(c: char, radix: nat) {
    DigitOf(c).Some? && DigitOf(c).value < radix
  }

  predicate AllDigits(s: string, radix: nat) {
    forall c :: c in s ==> IsDigit(c, radix)
  }

  function Digit(d: nat): (c: char)
    requires d < 16
    ensures DigitOf(c) == Some(d) && LowerChar(c) == c && c != 'x'
  {
    if d < 10 then '0' + d as char else 'a' + (d - 10) as char
  }

  function LowerChar(c: char): char {
    if 'A' <= c <= 'Z' then 'a' + (c - 'A') else c
  }

  function Lower(s: string): (r: string)
    ensures |r| == |s| && forall i :: 0 <= i < |s| ==> r[i] == LowerChar(s[i])
  {
    if s == [] then [] else [LowerChar(s[0])] + Lower(s[1..])
  }

  function ValueOf(s: string, radix: nat): nat
    requires AllDigits(s, radix)
  {
    if s == [] then 0
    else
      assert s[|s| - 1] in s;
      radix * ValueOf(s[..|s| - 1], radix) + DigitOf(s[|s| - 1]).value
  }

  /** The longest beginning of s made of digits. */
  function DigitPrefix(s: string, radix: nat): (p: string)
    ensures AllDigits(p, radix) && p <= s && (|p| < |s| ==> !IsDigit(s[|p|], radix))
  {
    if s == [] || !IsDigit(s[0], radix) then [] else [s[0]] + DigitPrefix(s[1..], radix)
  }

  lemma {:induction false} DigitPrefixOfDigits(s: string, radix: nat)
    requires AllDigits(s, radix)
    ensures DigitPrefix(s, radix) == s
  {
    if s != [] {
      assert s[0] in s && forall c :: c in s[1..] ==> c in s;
      DigitPrefixOfDigits(s[1..], radix);
    }
  }

  /** parseInt(s, radix) of a text with neither leading blanks nor a sign; None is NaN. */
  function ParseInt(s: string, radix: nat): Option<nat> {
    var digits := DigitPrefix(if radix == 16 && "0x" <= s then s[2..] else s, radix);
    if digits == [] then None else Some(ValueOf(digits, radix))
  }

  /** n.toString(radix) */
  function Numeral(n: nat, radix: nat): (s: string)
    requires 2 <= radix <= 16
    ensures s != []
  {
    if n < radix then [Digit(n)]
    else assert n / radix < n by { QuotientSmaller(n, radix); } Numeral(n / radix, radix) + [Digit(n % radix)]
  }

  lemma QuotientSmaller(n: nat, radix: nat)
    requires 2 <= radix <= n
    ensures n / radix < n
  {
    assert n == radix * (n / radix) + n % radix;
    if n / radix >= n {
      assert radix * (n / radix) >= 2 * n by { Multiply(radix, n / radix, n); }
      assert false;
    }
  }

  lemma Multiply(a: nat, b: nat, n: nat)
    requires a >= 2 && b >= n
    ensures a * b >= 2 * n
  {
    assert a * b == 2 * b + (a - 2) * b;
  }

  lemma ValueOfSnoc(s: string, c: char, radix: nat)
    requires AllDigits(s, radix) && IsDigit(c, radix)
    ensures AllDigits(s + [c], radix) && ValueOf(s + [c], radix) == radix * ValueOf(s, radix) + DigitOf(c).value
  {
    assert (s + [c])[..|s|] == s;
  }

  lemma ValueOfAppended(s: string, d: nat, radix: nat)
    requires d < radix <= 16 && AllDigits(s, radix)
    ensures AllDigits(s + [Digit(d)], radix) && ValueOf(s + [Digit(d)], radix) == radix * ValueOf(s, radix) + d
  {
    hide AllDigits, ValueOf;
    ValueOfSnoc(s, Digit(d), radix);
  }

  lemma NumeralSteps(n: nat, radix: nat) returns (q: nat, d: nat)
    requires 2 <= radix <= 16
    ensures d < radix && n == radix * q + d
    ensures if n < radix then Numeral(n, radix) == [] + [Digit(d)] && q == 0
            else Numeral(n, radix) == Numeral(q, radix) + [Digit(d)] && q < n
  {
    if n < radix {
      q, d := 0, n;
    } else {
      q, d := n / radix, n % radix;
      QuotientSmaller(n, radix);
    }
  }

  /** Reading a numeral back gives the number. */
  lemma {:induction false} NumeralValue(n: nat, radix: nat)
    requires 2 <= radix <= 16
    ensures AllDigits(Numeral(n, radix), radix) && ValueOf(Numeral(n, radix), radix) == n
    decreases n
  {
    hide *;
    var q, d := NumeralSteps(n, radix);
    if n < radix {
      NoDigits(radix);
      ValueOfAppended([], d, radix);
    } else {
      NumeralValue(q, radix);
      ValueOfAppended(Numeral(q, radix), d, radix);
    }
  }

  lemma NoDigits(radix: nat)
    ensures AllDigits([], radix) && ValueOf([], radix) == 0
  {
  }

  function Zeroes(n: nat): (s: string)
    ensures |s| == n && forall c :: c in s ==> c == '0'
  {
    if n == 0 then [] else Zeroes(n - 1) + ['0']
  }

  lemma {:induction false} ZeroesValue(n: nat, radix: nat)
    requires radix >= 1
    ensures AllDigits(Zeroes(n), radix) && ValueOf(Zeroes(n), radix) == 0
  {
    if n > 0 {
      ZeroesValue(n - 1, radix);
      hide AllDigits, ValueOf;
      ValueOfSnoc(Zeroes(n - 1), '0', radix);
    }
  }

  /** Leading zeros do not change the value. */
  lemma {:induction false} PaddedValue(k: nat, s: string, radix: nat)
    requires radix >= 1 && AllDigits(s, radix)
    ensures AllDigits(Zeroes(k) + s, radix) && ValueOf(Zeroes(k) + s, radix) == ValueOf(s, radix)
  {
    ZeroesValue(k, radix);
    var t := Zeroes(k) + s;
    if s == [] {
      assert t == Zeroes(k);
    } else {
      assert forall c :: c in s[..|s| - 1] ==> c in s;
      PaddedValue(k, s[..|s| - 1], radix);
      assert t[..|t| - 1] == Zeroes(k) + s[..|s| - 1];
    }
  }

  /** buffer.toString('hex') */
  function HexText(bs: seq<Byte>): (s: string)
    ensures |s| == 2 * |bs|
  {
    if bs == [] then []
    else
      var last: nat := bs[|bs| - 1];
      HexText(bs[..|bs| - 1]) + [Digit(last / 16), Digit(last % 16)]
  }

  lemma {:induction false} HexTextValue(bs: seq<Byte>)
    ensures AllDigits(HexText(bs), 16) && ValueOf(HexText(bs), 16) == FromBE(bs)
  {
    if bs != [] {
      var init, last: nat := bs[..|bs| - 1], bs[|bs| - 1];
      HexTextValue(init);
      hide ValueOf, AllDigits, Digit;
      var s := HexText(init);
      ValueOfAppended(s, last / 16, 16);
      ValueOfAppended(s + [Digit(last / 16)], last % 16, 16);
      assert HexText(bs) == s + [Digit(last / 16)] + [Digit(last % 16)];
    }
  }
}
