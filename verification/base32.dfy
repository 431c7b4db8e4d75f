/**
 Identifiers of streamlit/base32.py: scrambling by a multiplication modulo 2^40, a base-32 text form, and
 the capacity identifier put together from both.
 */
module Base32 {

  const TWO_40: int := 0x100_0000_0000
  const SCRAMBLE_KEY: int := 179424691
  const UNSCRAMBLE_KEY: int := 987164944763

  // ---- Scrambling ----

  /** Masking with 2^40 - 1 keeps the remainder modulo 2^40, also of a negative number. */
  function Masked(n: int): (r: int)
    ensures 0 <= r < TWO_40
  {
    n % TWO_40
  }

  function Scramble(n: int): int
  {
    Masked(n * SCRAMBLE_KEY)
  }

  function Unscramble(n: int): int
  {
    Masked(n * UNSCRAMBLE_KEY)
  }

  /** The keys are inverses modulo 2^40. */
  lemma KeysAreInverse()
    ensures SCRAMBLE_KEY * UNSCRAMBLE_KEY == 1 + 161091307 * TWO_40
  {
  }

  lemma MaskedShift(n: int, t: int)
    ensures Masked(n + TWO_40 * t) == Masked(n)
  {
  }

  lemma UndoesKey(n: int, key: int, inverse: int, t: int)
    requires key * inverse == 1 + t * TWO_40
    ensures Masked(Masked(n * key) * inverse) == Masked(n)
  {
    var q, r := n * key / TWO_40, Masked(n * key);
    assert n * key == q * TWO_40 + r;
    calc {
      r * inverse;
      (n * key - q * TWO_40) * inverse;
      n * (key * inverse) - TWO_40 * (q * inverse);
      n + TWO_40 * (n * t - q * inverse);
    }
    MaskedShift(n, n * t - q * inverse);
  }

  /** Scrambling is a bijection of the 40-bit numbers, undone by unscrambling in either order. */
  lemma ScrambleRoundTrip(n: int)
    ensures Unscramble(Scramble(n)) == Masked(n) == Scramble(Unscramble(n))
    ensures Scramble(n) == n * 179424691 % 0x100_0000_0000
    ensures 0 <= n < TWO_40 ==> Unscramble(Scramble(n)) == n
  {
    KeysAreInverse();
    UndoesKey(n, SCRAMBLE_KEY, UNSCRAMBLE_KEY, 161091307);
    UndoesKey(n, UNSCRAMBLE_KEY, SCRAMBLE_KEY, 161091307);
  }

  // ---- Text form ----

  const BASE32_CHARS: string := "0123456789ABCDEFGHJKMNPQRSTVWXYZ"

  /** The position of c among the digits from i on, or -1. */
  function DigitFrom(c: char, i: nat): (d: int)
    requires i <= 32
    ensures d == -1 || i <= d < 32
    decreases 32 - i
  {
    if i == 32 then -1 else if BASE32_CHARS[i] == c then i else DigitFrom(c, i + 1)
  }

  /** The value of a digit, or -1. */
  function DigitOf(c: char): (d: int)
    ensures -1 <= d < 32
  {
    DigitFrom(c, 0)
  }

  predicate IsDigits(s: string)
  {
    forall k :: 0 <= k < |s| ==> DigitOf(s[k]) >= 0
  }

  /** Positional reading of digits after a prefix of value m. */
  function ValueFrom(m: int, s: string): int
    decreases |s|
  {
    if s == [] then m else ValueFrom(m * 32 + DigitOf(s[0]), s[1..])
  }

  /** The number that a string of digits stands for. */
  function Value(s: string): int
  {
    ValueFrom(0, s)
  }

  /** m * 32^k. */
  function Shift(m: int, k: nat): int
    decreases k
  {
    if k == 0 then m else Shift(m * 32, k - 1)
  }

  lemma {:induction false} CharsAscend(i: nat, j: nat)
    requires i < j < 32
    ensures BASE32_CHARS[i] < BASE32_CHARS[j]
  {
    assert BASE32_CHARS[j - 1] < BASE32_CHARS[j];
    if i < j - 1 {
      CharsAscend(i, j - 1);
    }
  }

  lemma {:induction false} DigitFromChar(c: char, i: nat)
    requires i <= 32 && DigitFrom(c, i) >= 0
    ensures BASE32_CHARS[DigitFrom(c, i)] == c
    decreases 32 - i
  {
    if BASE32_CHARS[i] != c {
      DigitFromChar(c, i + 1);
    }
  }

  lemma CharOfDigit(c: char)
    requires DigitOf(c) >= 0
    ensures BASE32_CHARS[DigitOf(c)] == c
  {
    DigitFromChar(c, 0);
  }

  /** Characters with the same digit value are the same. */
  lemma SameDigit(c: char, c': char)
    requires DigitOf(c) == DigitOf(c') >= 0
    ensures c == c'
  {
    CharOfDigit(c);
    CharOfDigit(c');
  }

  lemma {:induction false} DigitFromFinds(d: nat, i: nat)
    requires i <= d < 32
    ensures DigitFrom(BASE32_CHARS[d], i) == d
    decreases d - i
  {
    if i < d {
      CharsAscend(i, d);
      DigitFromFinds(d, i + 1);
    }
  }

  /** The digits are distinct, so each of the 32 characters has its position as its value. */
  lemma DigitOfChar(d: nat)
    requires d < 32
    ensures DigitOf(BASE32_CHARS[d]) == d
  {
    DigitFromFinds(d, 0);
  }

  /** The digits are the decimal digits and the capital letters but I, L, O and U, in their order. */
  lemma Alphabet(c: char)
    ensures DigitOf(c) ==
              if '0' <= c <= '9' then c as int - '0' as int
              else if 'A' <= c <= 'H' then c as int - 'A' as int + 10
              else if 'J' <= c <= 'K' then c as int - 'J' as int + 18
              else if 'M' <= c <= 'N' then c as int - 'M' as int + 20
              else if 'P' <= c <= 'T' then c as int - 'P' as int + 22
              else if 'V' <= c <= 'Z' then c as int - 'V' as int + 27
              else -1
  {
    if DigitOf(c) >= 0 {
      CharOfDigit(c);
      CharAt(DigitOf(c));
    }
    var d := if '0' <= c <= '9' then c as int - '0' as int
             else if 'A' <= c <= 'H' then c as int - 'A' as int + 10
             else if 'J' <= c <= 'K' then c as int - 'J' as int + 18
             else if 'M' <= c <= 'N' then c as int - 'M' as int + 20
             else if 'P' <= c <= 'T' then c as int - 'P' as int + 22
             else if 'V' <= c <= 'Z' then c as int - 'V' as int + 27
             else -1;
    if d >= 0 {
      CharAt(d);
      DigitOfChar(d);
    }
  }

  lemma CharAt(d: nat)
    requires d < 32
    ensures BASE32_CHARS[d] as int
            == if d < 10 then '0' as int + d
               else if d < 18 then 'A' as int + d - 10
               else if d < 20 then 'J' as int + d - 18
               else if d < 22 then 'M' as int + d - 20
               else if d < 27 then 'P' as int + d - 22
               else 'V' as int + d - 27
  {
  }

  lemma {:induction false} ShiftMonotone(m: int, m': int, k: nat)
    requires m < m'
    ensures Shift(m, k) < Shift(m', k)
    decreases k
  {
    if k > 0 {
      ShiftMonotone(m * 32, m' * 32, k - 1);
    }
  }

  lemma {:induction false} ShiftGrows(m: int, k: nat, l: nat)
    requires m >= 0 && k <= l
    ensures Shift(m, k) <= Shift(m, l)
    decreases l
  {
    if k > 0 {
      ShiftGrows(m * 32, k - 1, l - 1);
    } else if l > 0 {
      ShiftGrows(m * 32, 0, l - 1);
    }
  }

  /** A prefix and the number of digits after it determine the value up to those digits. */
  lemma {:induction false} ValueBounds(m: int, s: string)
    requires IsDigits(s)
    ensures Shift(m, |s|) <= ValueFrom(m, s) < Shift(m + 1, |s|)
    decreases |s|
  {
    if s != [] {
      var d := DigitOf(s[0]);
      ValueBounds(m * 32 + d, s[1..]);
      if d > 0 {
        ShiftMonotone(m * 32, m * 32 + d, |s| - 1);
      }
      if d < 31 {
        ShiftMonotone(m * 32 + d + 1, m * 32 + 32, |s| - 1);
      }
    }
  }

  lemma ZeroDigit(c: char)
    ensures DigitOf(c) == 0 <==> c == '0'
  {
    assert BASE32_CHARS[0] == '0';
    if DigitOf(c) == 0 {
      CharOfDigit(c);
    }
  }

  lemma PositivePrefix(d: int, s: string)
    requires IsDigits(s) && d >= 1
    ensures ValueFrom(d, s) >= Shift(1, |s|)
  {
    ValueBounds(d, s);
    if d > 1 {
      ShiftMonotone(1, d, |s|);
    }
  }

  /** Without a leading zero the length is the smallest possible one. */
  lemma LeadingDigit(s: string)
    requires IsDigits(s) && s != [] && s[0] != '0'
    ensures Value(s) >= Shift(1, |s| - 1)
  {
    ZeroDigit(s[0]);
    PositivePrefix(DigitOf(s[0]), s[1..]);
  }

  lemma SamePrefix(m: int, d: int, m': int, d': int)
    requires 0 <= d < 32 && 0 <= d' < 32 && m * 32 + d == m' * 32 + d'
    ensures m == m' && d == d'
  {
  }

  lemma {:induction false} ValueIsInjective(m: int, s: string, m': int, s': string)
    requires IsDigits(s) && IsDigits(s') && |s| == |s'| && ValueFrom(m, s) == ValueFrom(m', s')
    ensures m == m' && s == s'
    decreases |s|
  {
    if s != [] {
      var d, d' := DigitOf(s[0]), DigitOf(s'[0]);
      ValueIsInjective(m * 32 + d, s[1..], m' * 32 + d', s'[1..]);
      SamePrefix(m, d, m', d');
      SameDigit(s[0], s'[0]);
      assert s == [s[0]] + s[1..] && s' == [s'[0]] + s'[1..];
    }
  }

  /** s is the base-32 form of n, padded with zeros to the minimum length and no further. */
  predicate Encodes(s: string, n: int, minLen: int)
  {
    IsDigits(s) && Value(s) == n && |s| >= minLen && (|s| > 0 && |s| > minLen ==> s[0] != '0')
  }

  lemma ShorterIsSmaller(s: string, t: string, n: int, minLen: int)
    requires Encodes(s, n, minLen) && Encodes(t, n, minLen)
    ensures |s| >= |t|
  {
    if |s| < |t| {
      LeadingDigit(t);
      ValueBounds(0, s);
      ShiftGrows(1, |s|, |t| - 1);
    }
  }

  /** A number has one form only. */
  lemma EncodingIsUnique(s: string, t: string, n: int, minLen: int)
    requires Encodes(s, n, minLen) && Encodes(t, n, minLen)
    ensures s == t
  {
    ShorterIsSmaller(s, t, n, minLen);
    ShorterIsSmaller(t, s, n, minLen);
    ValueIsInjective(0, s, 0, t);
  }

  /** With a minimum length of eight, the 40-bit numbers are exactly those with eight digits. */
  lemma EightDigits(s: string, n: int)
    requires Encodes(s, n, 8)
    ensures |s| == 8 <==> 0 <= n < TWO_40
  {
    ValueBounds(0, s);
    assert Shift(1, 8) == TWO_40 by {
      assert Shift(1, 8) == Shift(32768, 5) == Shift(1073741824, 2);
    }
    ShiftGrows(0, 0, |s|);
    if |s| > 8 {
      LeadingDigit(s);
      ShiftGrows(1, 8, |s| - 1);
    }
  }

  datatype Result = Ok(text: string) | ValueError

  /** Reading the digits collected so far, last one first, after a prefix of value m. */
  function Collected(m: int, chars: string): int
    decreases |chars|
  {
    if chars == [] then m else Collected(m * 32 + DigitOf(chars[|chars| - 1]), chars[..|chars| - 1])
  }

  function Reversed(s: string): (r: string)
    ensures |r| == |s| && forall k :: 0 <= k < |r| ==> r[k] == s[|s| - 1 - k]
  {
    if s == [] then [] else [s[|s| - 1]] + Reversed(s[..|s| - 1])
  }

  lemma {:induction false} ReversedReads(m: int, chars: string)
    ensures ValueFrom(m, Reversed(chars)) == Collected(m, chars)
    decreases |chars|
  {
    if chars != [] {
      var n := |chars| - 1;
      var s := Reversed(chars);
      ReversedReads(m * 32 + DigitOf(chars[n]), chars[..n]);
      assert s[0] == chars[n] && s[1..] == Reversed(chars[..n]);
    }
  }

  function Zeros(k: int): (s: string)
    ensures |s| == (if k < 0 then 0 else k) && forall j :: 0 <= j < |s| ==> s[j] == '0'
  {
    if k <= 0 then [] else ['0'] + Zeros(k - 1)
  }

  /** Leading zeros do not count. */
  lemma {:induction false} ZerosAddNothing(k: int, s: string)
    requires IsDigits(s)
    ensures Value(Zeros(k) + s) == Value(s) && IsDigits(Zeros(k) + s)
  {
    ZeroDigit('0');
    if k <= 0 {
      assert Zeros(k) + s == s;
    } else {
      ZerosAddNothing(k - 1, s);
      assert (Zeros(k) + s)[1..] == Zeros(k - 1) + s;
    }
  }

  /** base32. */
  method Base32(n: int, minLen: int) returns (r: Result)
    ensures r.ValueError? <==> n < 0
    ensures r.Ok? ==> Encodes(r.text, n, minLen)
  {
    if n < 0 {
      return ValueError;
    }
    if n == 0 {
      ZerosAddNothing(minLen, []);
      assert Zeros(minLen) + [] == Zeros(minLen);
      return Ok(Zeros(minLen));
    }
    var chars: string, m := [], n;
    while m > 0
      invariant m >= 0 && IsDigits(chars) && Collected(m, chars) == n
      invariant m == 0 ==> chars != [] && chars[|chars| - 1] != '0'
    {
      var remainder := m % 32;
      DigitOfChar(remainder);
      ZeroDigit(BASE32_CHARS[remainder]);
      assert (chars + [BASE32_CHARS[remainder]])[..|chars|] == chars;
      chars, m := chars + [BASE32_CHARS[remainder]], m / 32;
    }
    ReversedReads(0, chars);
    var s := Reversed(chars);
    ZerosAddNothing(minLen - |s|, s);
    r := Ok(Zeros(minLen - |s|) + s);
  }

  // ---- Capacity identifiers ----

  /** The fields packed in one number: 14 bits, 17 bits and 4 bits. */
  function CapacityNumber(hours: nat, otn: nat, network: nat): int
  {
    hours * 0x20_0000 + otn * 0x10 + network
  }

  /** The fields of an identifier. */
  function Fields(s: string): (int, int, int)
  {
    var n := Unscramble(Value(s));
    (n / 0x10 / 0x2_0000, n / 0x10 % 0x2_0000, n % 0x10)
  }

  lemma LowBits(high: int, network: nat)
    requires network < 0x10
    ensures (high * 0x10 + network) / 0x10 == high && (high * 0x10 + network) % 0x10 == network
  {
  }

  lemma HighBits(hours: int, otn: nat)
    requires otn < 0x2_0000
    ensures (hours * 0x2_0000 + otn) / 0x2_0000 == hours && (hours * 0x2_0000 + otn) % 0x2_0000 == otn
  {
  }

  lemma NumberRoundTrip(hours: nat, otn: nat, network: nat)
    requires hours < 0x4000 && otn < 0x2_0000 && network < 0x10
    ensures var n := CapacityNumber(hours, otn, network);
            && 0 <= n < 0x8_0000_0000
            && (n / 0x10 / 0x2_0000, n / 0x10 % 0x2_0000, n % 0x10) == (hours, otn, network)
  {
    var high := hours * 0x2_0000 + otn;
    assert CapacityNumber(hours, otn, network) == high * 0x10 + network;
    LowBits(high, network);
    HighBits(hours, otn);
  }

  /** capacity_id once the hours since the start of the year are known: an error for a negative OTN, another time
      zone or a year outside 1900 to 2999; else eight digits that give back the hours, the last five decimal digits
      of the OTN and the network. */
  method CapacityId(otn: int, swissTimezone: bool, year: int, hours: nat, standard: bool) returns (r: Result)
    requires hours < 0x4000
    ensures r.ValueError? <==> otn < 0 || !swissTimezone || year < 1900 || year >= 3000
    ensures r.Ok? ==> |r.text| == 8 && IsDigits(r.text)
                      && Fields(r.text) == (hours, otn % 100000, if standard then 0 else 1)
    ensures r.Ok? ==>
              Value(r.text) == (hours * 0x20_0000 + otn % 100000 * 0x10 + if standard then 0 else 1) * 179424691
                               % 0x100_0000_0000
  {
    if otn < 0 {
      return ValueError;
    }
    if !swissTimezone {
      return ValueError;
    }
    if year < 1900 || year >= 3000 {
      return ValueError;
    }
    var network := if standard then 0 else 1;
    var n := CapacityNumber(hours, otn % 100000, network);
    NumberRoundTrip(hours, otn % 100000, network);
    ScrambleRoundTrip(n);
    r := Base32(Scramble(n), 8);
    EightDigits(r.text, Scramble(n));
  }

  /** Every string of eight digits is the form of its own value: text and 40-bit numbers correspond one to one. */
  lemma TextRoundTrip(s: string, t: string)
    requires IsDigits(s) && |s| == 8 && Encodes(t, Value(s), 8)
    ensures 0 <= Value(s) < TWO_40 && s == t
  {
    EncodingIsUnique(s, t, Value(s), 8);
    EightDigits(s, Value(s));
  }
}
