/** The text formatting the contract generator relies on: `hex::encode`
    (two lowercase hexadecimal digits per byte), the eight big-endian bytes
    of a `u64` (`u64::to_be_bytes`) and `format!("{}")` of an unsigned
    integer. */
module Hex {
  import opened Bigint

  // ---------------------------------------------------------------------
  // Digits
  // ---------------------------------------------------------------------

  /** The value of a lowercase hexadecimal digit (0 for other characters). */
  function HexDigitValue(c: char): nat
  {
    if '0' <= c <= '9' then c as int - '0' as int
    else if 'a' <= c <= 'f' then c as int - 'a' as int + 10
    else 0
  }

  predicate IsHexDigit(c: char)
  {
    '0' <= c <= '9' || 'a' <= c <= 'f'
  }

  /** The lowercase hexadecimal digit of a nibble. */
  function HexDigit(d: nat): (c: char)
    requires d < 16
    ensures IsHexDigit(c) && HexDigitValue(c) == d
  {
    if d < 10 then ('0' as int + d) as char else ('a' as int + d - 10) as char
  }

  /** The value of a string of hexadecimal digits, most significant first. */
  function HexValue(s: string): nat
  {
    if s == [] then 0 else HexValue(s[..|s| - 1]) * 16 + HexDigitValue(s[|s| - 1])
  }

  lemma ShiftDigit(a: int, p: int, c: int, d: int)
    ensures (a * p + c) * 16 + d == a * (16 * p) + (c * 16 + d)
  {
  }

  /** Reading a concatenation: the left part is shifted by the digits of the
      right part. */
  lemma {:induction false} HexValueAppend(s: string, t: string)
    ensures HexValue(s + t) == HexValue(s) * Pow(16, |t|) + HexValue(t)
    decreases |t|
  {
    if t == [] {
      assert s + t == s;
    } else {
      var t' := t[..|t| - 1];
      assert (s + t)[..|s + t| - 1] == s + t';
      assert t[..|t| - 1] == t';
      HexValueAppend(s, t');
      var a, p, c, d := HexValue(s), Pow(16, |t'|), HexValue(t'), HexDigitValue(t[|t| - 1]);
      assert Pow(16, |t|) == 16 * p;
      assert HexValue(s + t) == (a * p + c) * 16 + d;
      ShiftDigit(a, p, c, d);
    }
  }

  /** Hexadecimal text is determined by its length and its value. */
  lemma {:induction false} HexTextUnique(s: string, t: string)
    requires |s| == |t| && HexValue(s) == HexValue(t)
    requires forall i :: 0 <= i < |s| ==> IsHexDigit(s[i])
    requires forall i :: 0 <= i < |t| ==> IsHexDigit(t[i])
    ensures s == t
    decreases |s|
  {
    if s != [] {
      var n := |s| - 1;
      var c, d := HexDigitValue(s[n]), HexDigitValue(t[n]);
      assert IsHexDigit(s[n]) && IsHexDigit(t[n]);
      ModUnique(HexValue(s), 16, HexValue(s[..n]), c);
      ModUnique(HexValue(t), 16, HexValue(t[..n]), d);
      assert forall i :: 0 <= i < n ==> s[..n][i] == s[i] && t[..n][i] == t[i];
      HexTextUnique(s[..n], t[..n]);
      assert s == s[..n] + [s[n]] && t == t[..n] + [t[n]];
    }
  }

  // ---------------------------------------------------------------------
  // hex::encode
  // ---------------------------------------------------------------------

  /** `hex::encode`: each byte as its high and then its low nibble. */
  function HexEncode(bytes: seq<byte>): (s: string)
    ensures |s| == 2 * |bytes|
    ensures forall i :: 0 <= i < |s| ==> IsHexDigit(s[i])
  {
    if bytes == [] then ""
    else
      var b := bytes[|bytes| - 1];
      HexEncode(bytes[..|bytes| - 1]) + [HexDigit(b / 16), HexDigit(b % 16)]
  }

  /** The hexadecimal text has the value of the big-endian bytes. */
  lemma {:induction false} HexEncodeValue(bytes: seq<byte>)
    ensures HexValue(HexEncode(bytes)) == FromBytesBe(bytes)
    decreases |bytes|
  {
    if bytes != [] {
      var init := bytes[..|bytes| - 1];
      var b := bytes[|bytes| - 1];
      var p := HexEncode(init);
      var s := p + [HexDigit(b / 16), HexDigit(b % 16)];
      assert s[..|s| - 1] == p + [HexDigit(b / 16)];
      assert (p + [HexDigit(b / 16)])[..|p|] == p;
      HexEncodeValue(init);
      assert HexValue(s) == (HexValue(p) * 16 + b / 16) * 16 + b % 16;
    }
  }

  // ---------------------------------------------------------------------
  // u64::to_be_bytes
  // ---------------------------------------------------------------------

  /** The last `k` big-endian bytes of `x`; all of `x` when it is below
      `256^k`. */
  function FixedBe(x: nat, k: nat): (r: seq<byte>)
    ensures |r| == k
    ensures x < Pow(256, k) ==> FromBytesBe(r) == x
  {
    if k == 0 then []
    else
      var hi := FixedBe(x / 256, k - 1);
      var r := hi + [x % 256];
      assert r[..|r| - 1] == hi;
      r
  }

  /** `u64::to_be_bytes`: exactly eight bytes, with the value of `x`. */
  function ToBeBytes(x: u64): (r: seq<byte>)
    ensures |r| == 8 && FromBytesBe(r) == x
  {
    assert Pow(256, 8) == 0x1_0000_0000_0000_0000;
    FixedBe(x, 8)
  }

  /** `hex::encode(x.to_be_bytes())`: sixteen hexadecimal digits, leading
      zeros kept. */
  function Hex16(x: u64): (s: string)
    ensures |s| == 16 && forall i :: 0 <= i < |s| ==> IsHexDigit(s[i])
  {
    HexEncode(ToBeBytes(x))
  }

  /** Read as a number, the sixteen digits are `x`. */
  lemma Hex16Value(x: u64)
    ensures HexValue(Hex16(x)) == x
  {
    HexEncodeValue(ToBeBytes(x));
  }

  /** The sixteen digits are the only sixteen-digit hexadecimal text with
      the value `x`. */
  lemma Hex16Unique(x: u64, s: string)
    requires |s| == 16 && forall i :: 0 <= i < |s| ==> IsHexDigit(s[i])
    requires HexValue(s) == x
    ensures s == Hex16(x)
  {
    Hex16Value(x);
    HexTextUnique(s, Hex16(x));
  }

  // ---------------------------------------------------------------------
  // format!("{}")
  // ---------------------------------------------------------------------

  predicate IsDecimalDigit(c: char)
  {
    '0' <= c <= '9'
  }

  /** The value of a string of decimal digits. */
  function DecimalValue(s: string): nat
  {
    if s == [] then 0 else DecimalValue(s[..|s| - 1]) * 10 + (s[|s| - 1] as int - '0' as int) % 10
  }

  /** `format!("{}", n)` of an unsigned integer: its decimal digits without
      leading zeros. */
  function Decimal(n: nat): (s: string)
    ensures |s| > 0 && (s[0] == '0' ==> s == "0")
    ensures forall i :: 0 <= i < |s| ==> IsDecimalDigit(s[i])
    ensures DecimalValue(s) == n
  {
    var d := ('0' as int + n % 10) as char;
    if n < 10 then
      [d]
    else
      var hi := Decimal(n / 10);
      assert (hi + [d])[..|hi|] == hi;
      hi + [d]
  }
}
