/**
 * EVM JSON-RPC "quantity" strings: `hexToUint64` (decoding) and the `"0x%x"` block
 * parameter (encoding). Both bor tools carry identical copies of the decoder.
 */
module HexQuantity {
  import opened Wrappers
  import opened GoInt

  datatype HexError =
    | EmptyHex                    // nothing left after the optional prefix
    | InvalidHex(digits: string)  // a character that is not a hexadecimal digit
    | OutOfRange(digits: string)  // the value does not fit in a uint64

  predicate IsHexDigit(c: char) {
    '0' <= c <= '9' || 'a' <= c <= 'f' || 'A' <= c <= 'F'
  }

  predicate AllHexDigits(s: string) {
    forall i :: 0 <= i < |s| ==> IsHexDigit(s[i])
  }

  function DigitValue(c: char): (v: nat)
    requires IsHexDigit(c)
    ensures v < 16
    ensures v == 0 <==> c == '0'
  {
    if c <= '9' then c as int - '0' as int
    else if c <= 'F' then c as int - 'A' as int + 10
    else c as int - 'a' as int + 10
  }

  /** The lower-case digit that `%x` prints for `v`. */
  function LowerDigit(v: nat): (c: char)
    requires v < 16
    ensures IsHexDigit(c) && DigitValue(c) == v
    ensures !('A' <= c <= 'F')
  {
    if v < 10 then ('0' as int + v) as char else ('a' as int + v - 10) as char
  }

  function Pow16(k: nat): (p: nat)
    ensures p >= 1
  {
    if k == 0 then 1 else 16 * Pow16(k - 1)
  }

  /** The number a string of hexadecimal digits denotes (most significant digit first). */
  function ValueOf(s: string): nat
    requires AllHexDigits(s)
  {
    if s == [] then 0 else ValueOf(s[..|s| - 1]) * 16 + DigitValue(s[|s| - 1])
  }

  predicate HasHexPrefix(h: string) {
    |h| >= 2 && h[0] == '0' && (h[1] == 'x' || h[1] == 'X')
  }

  /** Removes one leading `0x` or `0X`, if present. */
  function StripPrefix(h: string): string {
    if HasHexPrefix(h) then h[2..] else h
  }

  /**
   * hexToUint64: accepts an optional prefix followed by one or more hexadecimal digits
   * of either case whose value fits in 64 bits; every other input is rejected, and the
   * error says why.
   */
  function HexToUint64(h: string): (r: Result<nat, HexError>)
    ensures var d := StripPrefix(h);
      && (r == Err(EmptyHex) <==> d == [])
      && (r.Err? && r.error.InvalidHex? <==> d != [] && !AllHexDigits(d))
      && (r.Ok? <==> d != [] && AllHexDigits(d) && ValueOf(d) <= MaxUint64)
      && (r.Ok? ==> r.value == ValueOf(d))
    ensures r.Ok? ==> IsUint64(r.value)
  {
    var d := StripPrefix(h);
    if d == [] then Err(EmptyHex)
    else if !AllHexDigits(d) then Err(InvalidHex(d))
    else if ValueOf(d) > MaxUint64 then Err(OutOfRange(d))
    else Ok(ValueOf(d))
  }

  /** `%x`: lower-case hexadecimal, no leading zeros, "0" for zero. */
  function FormatHex(v: nat): (s: string)
    ensures |s| >= 1 && AllHexDigits(s)
    ensures forall i :: 0 <= i < |s| ==> !('A' <= s[i] <= 'F')
    ensures v > 0 ==> s[0] != '0'
  {
    if v < 16 then [LowerDigit(v)] else FormatHex(v / 16) + [LowerDigit(v % 16)]
  }

  /** The block parameter built by getBlockTimestamp: `"0x%x"` of the height. */
  function EncodeQuantity(height: nat): string {
    "0x" + FormatHex(height)
  }

  lemma {:induction false} ValueOfFormatHex(v: nat)
    ensures ValueOf(FormatHex(v)) == v
  {
    var s := FormatHex(v);
    if v >= 16 {
      ValueOfFormatHex(v / 16);
      assert s[..|s| - 1] == FormatHex(v / 16);
    }
  }

  /** For every uint64 `h`, decoding the `"0x%x"` rendering of `h` gives back `h`. */
  lemma EncodeDecodeRoundTrip(height: nat)
    requires IsUint64(height)
    ensures HexToUint64(EncodeQuantity(height)) == Ok(height)
  {
    var s := EncodeQuantity(height);
    assert StripPrefix(s) == FormatHex(height);
    ValueOfFormatHex(height);
  }

  /** The upper-case prefix and the bare digits decode to the same value as well. */
  lemma PrefixVariantsRoundTrip(height: nat)
    requires IsUint64(height)
    ensures HexToUint64("0X" + FormatHex(height)) == Ok(height)
    ensures HexToUint64(FormatHex(height)) == Ok(height)
  {
    var s := FormatHex(height);
    assert StripPrefix("0X" + s) == s;
    ValueOfFormatHex(height);
  }

  /** Digit strings of length k denote numbers below 16^k. */
  lemma {:induction false} ValueOfUpperBound(s: string)
    requires AllHexDigits(s)
    ensures ValueOf(s) < Pow16(|s|)
  {
    if s != [] {
      var p := s[..|s| - 1];
      ValueOfUpperBound(p);
      assert ValueOf(s) <= (Pow16(|p|) - 1) * 16 + 15;
    }
  }

  /** Without a leading zero, k digits denote at least 16^(k-1). */
  lemma {:induction false} ValueOfLowerBound(s: string)
    requires AllHexDigits(s) && s != [] && s[0] != '0'
    ensures ValueOf(s) >= Pow16(|s| - 1)
  {
    if |s| > 1 {
      var p := s[..|s| - 1];
      assert p[0] == s[0];
      ValueOfLowerBound(p);
    } else {
      assert s[..0] == [];
    }
  }

  lemma MaxUint64IsPow16()
    ensures Pow16(16) == MaxUint64 + 1
  {
    assert Pow16(1) == 0x10;
    assert Pow16(2) == 0x100;
    assert Pow16(3) == 0x1000;
    assert Pow16(4) == 0x10000;
    assert Pow16(5) == 0x100000;
    assert Pow16(6) == 0x1000000;
    assert Pow16(7) == 0x10000000;
    assert Pow16(8) == 0x100000000;
    assert Pow16(9) == 0x1000000000;
    assert Pow16(10) == 0x10000000000;
    assert Pow16(11) == 0x100000000000;
    assert Pow16(12) == 0x1000000000000;
    assert Pow16(13) == 0x10000000000000;
    assert Pow16(14) == 0x100000000000000;
    assert Pow16(15) == 0x1000000000000000;
    assert Pow16(16) == 0x10000000000000000;
  }

  /** Any 1 to 16 hexadecimal digits, after a prefix, are accepted with the value they denote. */
  lemma AcceptsUpToSixteenDigits(d: string)
    requires AllHexDigits(d) && 1 <= |d| <= 16
    ensures HexToUint64("0x" + d) == Ok(ValueOf(d))
  {
    assert StripPrefix("0x" + d) == d;
    ValueOfUpperBound(d);
    PowMonotone(|d|, 16);
    MaxUint64IsPow16();
  }

  /** Seventeen or more significant digits exceed 2^64 - 1 and are rejected as out of range. */
  lemma RejectsMoreThanSixteenDigits(d: string)
    requires AllHexDigits(d) && |d| > 16 && d[0] != '0'
    ensures HexToUint64("0x" + d) == Err(OutOfRange(d))
  {
    assert StripPrefix("0x" + d) == d;
    ValueOfLowerBound(d);
    PowMonotone(16, |d| - 1);
    MaxUint64IsPow16();
  }

  lemma {:induction false} PowMonotone(j: nat, k: nat)
    requires j <= k
    ensures Pow16(j) <= Pow16(k)
  {
    if j < k {
      PowMonotone(j, k - 1);
    }
  }

  /** Only one prefix is stripped: a second `0x` is an invalid digit string. */
  lemma StripsOnePrefixOnly(d: string)
    ensures HexToUint64("0x0x" + d) == Err(InvalidHex("0x" + d))
  {
    var h := "0x0x" + d;
    assert StripPrefix(h) == "0x" + d;
    assert !IsHexDigit(StripPrefix(h)[1]);
  }

  /** A bare prefix leaves nothing to parse. */
  lemma BarePrefixIsEmpty()
    ensures HexToUint64("0x") == Err(EmptyHex)
    ensures HexToUint64("0X") == Err(EmptyHex)
    ensures HexToUint64("") == Err(EmptyHex)
  {
    assert StripPrefix("0x") == [];
    assert StripPrefix("0X") == [];
  }
}
