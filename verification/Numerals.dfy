/** Decimal and hexadecimal text: the `%u`, `%02x` and `%08x` conversions, the
    `bin2hex`/`hex2bin` helpers, and what a reader of that text recovers. */
module Numerals {
  import opened Basics

  predicate IsDigit(c: char) {
    '0' <= c <= '9'
  }

  predicate AllDigits(s: string) {
    forall i :: 0 <= i < |s| ==> IsDigit(s[i])
  }

  function DigitOf(d: int): char
    requires 0 <= d < 10
  {
    '0' + d as char
  }

  function DigitValue(c: char): nat
    requires IsDigit(c)
  {
    c as int - '0' as int
  }

  /** `%u`: the decimal text of a number, without leading zeros. */
  function Dec(n: nat): string {
    if n < 10 then [DigitOf(n)] else Dec(n / 10) + [DigitOf(n % 10)]
  }

  /** The number a string of decimal digits denotes. */
  function DecValue(s: string): nat
    requires AllDigits(s)
  {
    if s == "" then 0 else 10 * DecValue(s[..|s| - 1]) + DigitValue(s[|s| - 1])
  }

  function Pow10(k: nat): nat {
    if k == 0 then 1 else 10 * Pow10(k - 1)
  }

  lemma {:induction false} DecRoundTrip(n: nat)
    ensures AllDigits(Dec(n)) && DecValue(Dec(n)) == n
    ensures |Dec(n)| > 0 && (Dec(n)[0] == '0' ==> Dec(n) == "0")
  {
    if n < 10 {
      assert Dec(n)[..0] == "";
    } else {
      DecRoundTrip(n / 10);
      assert Dec(n)[..|Dec(n)| - 1] == Dec(n / 10);
      assert n / 10 != 0;
    }
  }

  lemma {:induction false} DecLength(n: nat, k: nat)
    requires k > 0
    ensures |Dec(n)| <= k <==> n < Pow10(k)
  {
    if n >= 10 {
      if k == 1 {
        assert |Dec(n / 10)| > 0;
      } else {
        DecLength(n / 10, k - 1);
      }
    } else {
      Pow10Bound(k);
    }
  }

  lemma {:induction false} Pow10Bound(k: nat)
    requires k > 0
    ensures Pow10(k) >= 10
  {
    if k > 1 { Pow10Bound(k - 1); }
  }

  /** A leading part of a digit string denotes no more than the whole. */
  lemma {:induction false} DecValuePrefix(s: string, k: nat)
    requires AllDigits(s) && k <= |s|
    ensures DecValue(s[..k]) <= DecValue(s)
  {
    if k < |s| {
      DecValuePrefix(s[..|s| - 1], k);
      assert s[..|s| - 1][..k] == s[..k];
    } else {
      assert s[..k] == s;
    }
  }

  // ----- hexadecimal -----

  function Nibble(d: int): char
    requires 0 <= d < 16
  {
    if d < 10 then '0' + d as char else 'a' + (d - 10) as char
  }

  /** `char2hex`: both letter cases are accepted. */
  function NibbleValue(c: char): Option<nat> {
    if '0' <= c <= '9' then Some(c as int - '0' as int)
    else if 'a' <= c <= 'f' then Some(c as int - 'a' as int + 10)
    else if 'A' <= c <= 'F' then Some(c as int - 'A' as int + 10)
    else None
  }

  /** `%02x` */
  function HexByte(b: byte): string {
    [Nibble(b / 16), Nibble(b % 16)]
  }

  /** `bin2hex` into a buffer that is large enough. */
  function Hex(data: seq<byte>): string {
    if data == [] then "" else HexByte(data[0]) + Hex(data[1..])
  }

  /** `hex2bin` on an even number of characters: None when one is not a
      hexadecimal digit. */
  function Unhex(s: string): Option<seq<byte>> {
    if |s| < 2 then (if s == "" then Some([]) else None)
    else
      match (NibbleValue(s[0]), NibbleValue(s[1]), Unhex(s[2..]))
      case (Some(h), Some(l), Some(rest)) =>
        if h < 16 && l < 16 then Some([16 * h + l] + rest) else None
      case _ => None
  }

  lemma NibbleRoundTrip(d: int)
    requires 0 <= d < 16
    ensures NibbleValue(Nibble(d)) == Some(d)
  {
  }

  lemma {:induction false} HexRoundTrip(data: seq<byte>)
    ensures Unhex(Hex(data)) == Some(data) && |Hex(data)| == 2 * |data|
  {
    if data != [] {
      var s := Hex(data);
      assert s[2..] == Hex(data[1..]);
      HexRoundTrip(data[1..]);
      NibbleRoundTrip(data[0] / 16);
      NibbleRoundTrip(data[0] % 16);
      assert data == [data[0]] + data[1..];
    }
  }

  lemma {:induction false} UnhexLength(s: string)
    ensures Unhex(s).Some? ==> 2 * |Unhex(s).value| == |s|
  {
    if |s| >= 2 { UnhexLength(s[2..]); }
  }

  predicate IsHexChar(c: char) {
    '0' <= c <= '9' || 'a' <= c <= 'f'
  }

  lemma {:induction false} HexChars(data: seq<byte>)
    ensures forall i :: 0 <= i < |Hex(data)| ==> IsHexChar(Hex(data)[i])
  {
    if data != [] { HexChars(data[1..]); }
  }

  /** `%0<k>x` of a number below 16^k: exactly k digits. */
  function HexFixed(n: nat, k: nat): string {
    if k == 0 then "" else HexFixed(n / 16, k - 1) + [Nibble(n % 16)]
  }

  function Pow16(k: nat): nat {
    if k == 0 then 1 else 16 * Pow16(k - 1)
  }

  function HexValue(s: string): Option<nat> {
    if s == "" then Some(0)
    else
      match (HexValue(s[..|s| - 1]), NibbleValue(s[|s| - 1]))
      case (Some(h), Some(l)) => Some(16 * h + l)
      case _ => None
  }

  lemma {:induction false} HexFixedRoundTrip(n: nat, k: nat)
    requires n < Pow16(k)
    ensures |HexFixed(n, k)| == k && HexValue(HexFixed(n, k)) == Some(n)
    ensures forall i :: 0 <= i < k ==> IsHexChar(HexFixed(n, k)[i])
  {
    if k > 0 {
      HexFixedRoundTrip(n / 16, k - 1);
      var s := HexFixed(n, k);
      assert s[..|s| - 1] == HexFixed(n / 16, k - 1);
      NibbleRoundTrip(n % 16);
    }
  }

  /** A hexadecimal digit of either case. */
  predicate IsHexDigit(c: char) {
    '0' <= c <= '9' || 'a' <= c <= 'f' || 'A' <= c <= 'F'
  }

  /** The value of a hexadecimal digit; both cases mean the same. */
  lemma NibbleValues(c: char)
    ensures NibbleValue(c).Some? <==> IsHexDigit(c)
    ensures NibbleValue(c).Some? ==> NibbleValue(c).value < 16
    ensures 'A' <= c <= 'F' ==> NibbleValue(c) == NibbleValue((c as int + 32) as char)
    ensures 'a' <= c <= 'f' ==> NibbleValue(c) == Some(10 + (c as int - 'a' as int))
    ensures '0' <= c <= '9' ==> NibbleValue(c) == Some(c as int - '0' as int)
  {
  }

  predicate AllHexDigits(s: string) {
    forall i :: 0 <= i < |s| ==> IsHexDigit(s[i])
  }

  lemma {:induction false} TwoHexDigits(s: string)
    requires |s| >= 2
    ensures AllHexDigits(s) <==> IsHexDigit(s[0]) && IsHexDigit(s[1]) && AllHexDigits(s[2..])
  {
    var rest := s[2..];
    assert forall i :: 2 <= i < |s| ==> s[i] == rest[i - 2];
    assert forall i :: 0 <= i < |rest| ==> rest[i] == s[i + 2];
  }

  /** What is accepted as bytes: an even number of hexadecimal digits, and nothing
      else. */
  lemma {:induction false} UnhexAccepts(s: string)
    ensures Unhex(s).Some? <==> |s| % 2 == 0 && AllHexDigits(s)
    decreases |s|
  {
    hide Unhex, IsHexDigit, AllHexDigits;
    if |s| >= 2 {
      UnhexStep(s);
      UnhexAccepts(s[2..]);
      TwoHexDigits(s);
    } else {
      ShortIsHex(s);
    }
  }

  lemma {:induction false} UnhexStep(s: string)
    requires |s| >= 2
    ensures Unhex(s).Some? <==> IsHexDigit(s[0]) && IsHexDigit(s[1]) && Unhex(s[2..]).Some?
    ensures |s[2..]| % 2 == |s| % 2
  {
    hide NibbleValue, IsHexDigit;
    NibbleValues(s[0]);
    NibbleValues(s[1]);
  }

  lemma ShortIsHex(s: string)
    requires |s| < 2
    ensures Unhex(s).Some? <==> |s| == 0
    ensures |s| == 0 ==> AllHexDigits(s)
  {
  }
}
