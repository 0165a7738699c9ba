/** The JavaScript text built-ins the core relies on: `Number.prototype.toString`
    for integers, `String.prototype.padStart`, and `parseInt` without a radix.
    The ten-character, zero-padded node address used in every onion layer is
    built from the first two. */
module JsText {
  import opened Common

  /** Width of the address handed to every onion layer (`padStart(10, "0")`). */
  const ADDRESS_WIDTH: nat := 10

  function Pow10(k: nat): (p: nat)
    ensures p >= 1
  {
    if k == 0 then 1 else 10 * Pow10(k - 1)
  }

  /** The value of a character as a digit in radix 36, or 36 when it is not
      alphanumeric; a character is a digit of `radix` when its value is below it. */
  function DigitOf(c: char): nat
  {
    if '0' <= c <= '9' then c as nat - '0' as nat
    else if 'a' <= c <= 'z' then c as nat - 'a' as nat + 10
    else if 'A' <= c <= 'Z' then c as nat - 'A' as nat + 10
    else 36
  }

  predicate IsDecimalDigit(c: char)
  {
    '0' <= c <= '9'
  }

  function DigitChar(d: nat): (c: char)
    requires d < 10
    ensures IsDecimalDigit(c) && DigitOf(c) == d
  {
    ('0' as nat + d) as char
  }

  // ---------------------------------------------------------------------------
  // Number.prototype.toString on integers
  // ---------------------------------------------------------------------------

  /** Decimal digits of `n`, most significant first. */
  function NatToString(n: nat): (s: string)
    ensures |s| >= 1
    decreases n
  {
    if n < 10 then [DigitChar(n)] else NatToString(n / 10) + [DigitChar(n % 10)]
  }

  /** The text of `n` is all decimal digits, with no leading zero unless it
      is "0" itself. */
  lemma {:induction false} NatToStringDigits(n: nat)
    ensures forall i :: 0 <= i < |NatToString(n)| ==> IsDecimalDigit(NatToString(n)[i])
    ensures NatToString(n)[0] == '0' ==> n == 0 && |NatToString(n)| == 1
    decreases n
  {
    if n >= 10 {
      NatToStringDigits(n / 10);
      assert NatToString(n)[0] == NatToString(n / 10)[0];
    }
  }

  /** `id.toString()` for an integer id: a minus sign, then the digits. */
  function IntToString(i: int): string
  {
    if i < 0 then "-" + NatToString(-i) else NatToString(i)
  }

  // ---------------------------------------------------------------------------
  // String.prototype.padStart with a one-character filler
  // ---------------------------------------------------------------------------

  function Repeat(c: char, n: nat): (r: string)
    ensures |r| == n
    ensures forall i :: 0 <= i < n ==> r[i] == c
  {
    if n == 0 then [] else [c] + Repeat(c, n - 1)
  }

  /** `s.padStart(width, fill)`: strings at least `width` long come back as
      they are; shorter ones get `fill` prepended up to `width`. */
  function PadStart(s: string, width: nat, fill: char): (r: string)
    ensures |s| >= width ==> r == s
    ensures |s| < width ==> |r| == width
  {
    if |s| >= width then s else Repeat(fill, width - |s|) + s
  }

  /** A padded string is the filler repeated, followed by the original. */
  lemma PadStartShape(s: string, width: nat, fill: char)
    ensures PadStart(s, width, fill) == Repeat(fill, |PadStart(s, width, fill)| - |s|) + s
  {
  }

  /** `id.toString().padStart(10, "0")`, the address string of one layer. */
  function EncodeAddress(id: int): string
  {
    PadStart(IntToString(id), ADDRESS_WIDTH, '0')
  }

  /** Drops leading '0' characters but keeps a lone final "0". */
  function StripLeadingZeros(s: string): (r: string)
  {
    if |s| > 1 && s[0] == '0' then StripLeadingZeros(s[1..]) else s
  }

  // ---------------------------------------------------------------------------
  // parseInt(s) with no radix argument
  // ---------------------------------------------------------------------------

  /** The white space and line terminators `parseInt` skips at the front. */
  predicate IsJsWhiteSpace(c: char)
  {
    var k := c as int;
    k == 0x09 || k == 0x0A || k == 0x0B || k == 0x0C || k == 0x0D || k == 0x20
    || k == 0xA0 || k == 0x1680 || (0x2000 <= k <= 0x200A) || k == 0x2028
    || k == 0x2029 || k == 0x202F || k == 0x205F || k == 0x3000 || k == 0xFEFF
  }

  function TrimStart(s: string): (r: string)
    ensures |r| <= |s| && r == s[|s| - |r|..]
    ensures |r| > 0 ==> !IsJsWhiteSpace(r[0])
    ensures (forall i :: 0 <= i < |s| ==> !IsJsWhiteSpace(s[i])) ==> r == s
  {
    if |s| > 0 && IsJsWhiteSpace(s[0]) then TrimStart(s[1..]) else s
  }

  /** Length of the longest prefix of `s` made of digits of `radix`. */
  function DigitRunLength(s: string, radix: nat): (n: nat)
    ensures n <= |s|
    ensures forall i :: 0 <= i < n ==> DigitOf(s[i]) < radix
    ensures n < |s| ==> DigitOf(s[n]) >= radix
  {
    if |s| > 0 && DigitOf(s[0]) < radix then 1 + DigitRunLength(s[1..], radix) else 0
  }

  /** Positional value of a string of digits of `radix`. */
  function DigitsValue(s: string, radix: nat): nat
  {
    if |s| == 0 then 0 else DigitsValue(s[..|s| - 1], radix) * radix + DigitOf(s[|s| - 1])
  }

  /** `parseInt(s)`: skip leading white space, read an optional sign, switch to
      radix 16 after a "0x"/"0X" prefix, then read the longest run of digits;
      no digit at all gives NaN (`None`). */
  function ParseInt(s: string): Option<int>
  {
    ParseSigned(TrimStart(s))
  }

  function ParseSigned(t: string): Option<int>
  {
    if |t| > 0 && t[0] == '-' then
      match ParseUnsigned(t[1..])
      case None => None
      case Some(v) => Some(-v)
    else if |t| > 0 && t[0] == '+' then ParseUnsigned(t[1..])
    else ParseUnsigned(t)
  }

  function ParseUnsigned(u: string): Option<int>
  {
    if |u| >= 2 && u[0] == '0' && (u[1] == 'x' || u[1] == 'X') then ParseDigits(u[2..], 16)
    else ParseDigits(u, 10)
  }

  function ParseDigits(v: string, radix: nat): Option<int>
  {
    var n := DigitRunLength(v, radix);
    if n == 0 then None else Some(DigitsValue(v[..n], radix))
  }

  // ---------------------------------------------------------------------------
  // Properties
  // ---------------------------------------------------------------------------

  /** Reading the decimal digits back gives the number. */
  lemma {:induction false} NatToStringValue(n: nat)
    ensures DigitsValue(NatToString(n), 10) == n
    decreases n
  {
    if n >= 10 {
      var s := NatToString(n);
      var p := NatToString(n / 10);
      assert s == p + [DigitChar(n % 10)];
      assert s[..|s| - 1] == p;
      NatToStringValue(n / 10);
    }
  }

  /** A string with no leading white space, sign or "0x" that is all decimal
      digits is read whole, in radix 10. */
  lemma DigitRunCoversDigits(s: string)
    requires forall i :: 0 <= i < |s| ==> IsDecimalDigit(s[i])
    ensures DigitRunLength(s, 10) == |s|
  {
  }

  /** A string of decimal digits is read whole, in radix 10. */
  lemma ParseDecimalDigits(d: string)
    requires |d| >= 1 && (d[0] != '0' || |d| == 1)
    requires forall i :: 0 <= i < |d| ==> IsDecimalDigit(d[i])
    ensures ParseUnsigned(d) == Some(DigitsValue(d, 10))
  {
    DigitRunCoversDigits(d);
    assert d[..|d|] == d;
  }

  lemma NoWhiteSpaceInNumber(s: string)
    requires forall i :: 0 <= i < |s| ==> IsDecimalDigit(s[i]) || s[i] == '-'
    ensures TrimStart(s) == s
  {
  }

  lemma ParseNatToString(m: nat)
    ensures ParseUnsigned(NatToString(m)) == Some(m)
    ensures forall i :: 0 <= i < |NatToString(m)| ==> IsDecimalDigit(NatToString(m)[i])
  {
    NatToStringDigits(m);
    NatToStringValue(m);
    ParseDecimalDigits(NatToString(m));
  }

  /** `parseInt(id.toString())` gives back `id` for every integer `id`. */
  lemma ParseIntRoundTrip(id: int)
    ensures ParseInt(IntToString(id)) == Some(id)
  {
    var m: nat := if id < 0 then -id else id;
    var d := NatToString(m);
    ParseNatToString(m);
    if id < 0 {
      var s := "-" + d;
      assert s[1..] == d;
      NoWhiteSpaceInNumber(s);
      assert ParseSigned(s) == Some(id);
    } else {
      NoWhiteSpaceInNumber(d);
      assert ParseSigned(d) == Some(id);
    }
  }

  /** `toString` is injective on integers. */
  lemma IntToStringInjective(a: int, b: int)
    requires IntToString(a) == IntToString(b)
    ensures a == b
  {
    ParseIntRoundTrip(a);
    ParseIntRoundTrip(b);
  }

  /** The number of decimal digits of `n` is at most `k` exactly when `n < 10^k`. */
  lemma {:induction false} NatToStringLength(n: nat, k: nat)
    requires k >= 1
    ensures |NatToString(n)| <= k <==> n < Pow10(k)
    decreases n
  {
    if n >= 10 {
      if k == 1 {
        assert |NatToString(n)| == |NatToString(n / 10)| + 1;
      } else {
        NatToStringLength(n / 10, k - 1);
        assert n / 10 < Pow10(k - 1) <==> n < 10 * Pow10(k - 1);
      }
    } else {
      assert Pow10(k) == 10 * Pow10(k - 1);
    }
  }

  lemma StripZeroPadding(k: nat, s: string)
    requires |s| >= 1 && (s[0] != '0' || |s| == 1)
    ensures StripLeadingZeros(Repeat('0', k) + s) == s
  {
    if k > 0 {
      assert (Repeat('0', k) + s)[1..] == Repeat('0', k - 1) + s;
    }
  }

  /** Every address has exactly `ADDRESS_WIDTH` characters precisely when
      the id has at most ten characters once written out: ids in
      0..9999999999 and negative ids down to -999999999. Longer ids are
      passed through unpadded. */
  lemma EncodeAddressWidth(id: int)
    ensures |EncodeAddress(id)| == ADDRESS_WIDTH <==> -(Pow10(ADDRESS_WIDTH - 1) as int) < id < Pow10(ADDRESS_WIDTH)
    ensures |EncodeAddress(id)| >= ADDRESS_WIDTH
  {
    if id < 0 {
      NatToStringLength(-id, ADDRESS_WIDTH - 1);
    } else {
      NatToStringLength(id, ADDRESS_WIDTH);
    }
  }

  /** Dropping the leading zeros of an address gives back `id.toString()`. */
  lemma EncodeAddressStrips(id: int)
    ensures StripLeadingZeros(EncodeAddress(id)) == IntToString(id)
  {
    var s := IntToString(id);
    NatToStringDigits(if id < 0 then -id else id);
    PadStartShape(s, ADDRESS_WIDTH, '0');
    StripZeroPadding(|EncodeAddress(id)| - |s|, s);
  }

  /** Distinct ids give distinct addresses. */
  lemma EncodeAddressInjective(a: int, b: int)
    ensures EncodeAddress(a) == EncodeAddress(b) <==> a == b
  {
    if EncodeAddress(a) == EncodeAddress(b) {
      EncodeAddressStrips(a);
      EncodeAddressStrips(b);
      IntToStringInjective(a, b);
    }
  }

  /** `parseInt` reads a non-negative address back to its id: leading zeros
      carry no value. */
  lemma {:induction false} LeadingZerosValue(k: nat, s: string)
    ensures DigitsValue(Repeat('0', k) + s, 10) == DigitsValue(s, 10)
    decreases |s|
  {
    if |s| == 0 {
      ZerosValue(k);
      assert Repeat('0', k) + s == Repeat('0', k);
    } else {
      var t := Repeat('0', k) + s;
      assert t[..|t| - 1] == Repeat('0', k) + s[..|s| - 1];
      LeadingZerosValue(k, s[..|s| - 1]);
    }
  }

  lemma {:induction false} ZerosValue(k: nat)
    ensures DigitsValue(Repeat('0', k), 10) == 0
  {
    if k > 0 {
      var z := Repeat('0', k);
      assert z[..k - 1] == Repeat('0', k - 1);
      ZerosValue(k - 1);
    }
  }

  /** Decimal digits, possibly zero-padded, are read back to their value. */
  lemma ParseDigitString(a: string)
    requires |a| >= 1
    requires forall i :: 0 <= i < |a| ==> IsDecimalDigit(a[i])
    ensures ParseInt(a) == Some(DigitsValue(a, 10))
  {
    NoWhiteSpaceInNumber(a);
    assert ParseSigned(a) == ParseUnsigned(a);
    DigitRunCoversDigits(a);
    assert a[..|a|] == a;
  }

  lemma ParseAddress(id: int)
    requires 0 <= id
    ensures ParseInt(EncodeAddress(id)) == Some(id)
  {
    var d := NatToString(id);
    NatToStringDigits(id);
    var a := EncodeAddress(id);
    var k := |a| - |d|;
    PadStartShape(d, ADDRESS_WIDTH, '0');
    assert a == Repeat('0', k) + d;
    ParseDigitString(a);
    LeadingZerosValue(k, d);
    NatToStringValue(id);
  }
}
