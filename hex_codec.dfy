/** Hexadecimal text as the solver produces and consumes it: Rust's
    zero-padded lower-case formatting `{:0Nx}` of unsigned integers, and the
    `hex` crate's `decode` and `encode`. Fixed-width hex text decodes to the
    big-endian bytes of the number it spells, so big-endian byte strings are
    defined here as well. */
module HexCodec {
  import opened Wrappers

  type uint8 = x: int | 0 <= x < 256

  /** The failures `hex::decode` reports. */
  datatype HexError = OddLength | InvalidHexCharacter(c: char, index: nat)

  predicate IsHexDigit(c: char) {
    '0' <= c <= '9' || 'a' <= c <= 'f' || 'A' <= c <= 'F'
  }

  predicate IsLowerHexDigit(c: char) {
    '0' <= c <= '9' || 'a' <= c <= 'f'
  }

  predicate IsHexString(s: string) {
    forall k :: 0 <= k < |s| ==> IsHexDigit(s[k])
  }

  predicate IsLowerHexString(s: string) {
    forall k :: 0 <= k < |s| ==> IsLowerHexDigit(s[k])
  }

  /** The value of one hex digit, either case. */
  function DigitValue(c: char): (v: nat)
    requires IsHexDigit(c)
    ensures v < 16
  {
    if '0' <= c <= '9' then c as int - '0' as int
    else if 'a' <= c <= 'f' then c as int - 'a' as int + 10
    else c as int - 'A' as int + 10
  }

  /** The lower-case digit for a value below 16; it reads back as that value. */
  function LowerDigit(v: nat): (c: char)
    requires v < 16
    ensures IsLowerHexDigit(c) && DigitValue(c) == v
  {
    if v < 10 then ('0' as int + v) as char else ('a' as int + v - 10) as char
  }

  /** ASCII lower-casing of one character. */
  function LowerChar(c: char): char {
    if 'A' <= c <= 'Z' then (c as int + 32) as char else c
  }

  function ToLower(s: string): string {
    seq(|s|, k requires 0 <= k < |s| => LowerChar(s[k]))
  }

  function Pow(base: nat, k: nat): nat {
    if k == 0 then 1 else base * Pow(base, k - 1)
  }

  lemma {:induction false} Pow16IsPow256(k: nat)
    ensures Pow(16, 2 * k) == Pow(256, k)
  {
    if k > 0 {
      Pow16IsPow256(k - 1);
      assert Pow(16, 2 * k) == 16 * 16 * Pow(16, 2 * (k - 1));
    }
  }

  lemma HexStringConcat(a: string, b: string)
    ensures IsHexString(a + b) <==> IsHexString(a) && IsHexString(b)
  {
    if IsHexString(a + b) {
      assert forall k :: 0 <= k < |a| ==> a[k] == (a + b)[k];
      assert forall k :: 0 <= k < |b| ==> b[k] == (a + b)[|a| + k];
    }
  }

  lemma LowerHexIsHex(s: string)
    requires IsLowerHexString(s)
    ensures IsHexString(s)
  {
  }

  /** Lower-case hex text is its own lower-case form. */
  lemma LowerHexIsLowerCase(s: string)
    requires IsLowerHexString(s)
    ensures ToLower(s) == s
  {
  }

  lemma ToLowerConcat(a: string, b: string)
    ensures ToLower(a + b) == ToLower(a) + ToLower(b)
  {
  }

  function Zeros(k: nat): string {
    seq(k, _ => '0')
  }

  // ---------------------------------------------------------------------
  // Rust's `{:0Nx}`: lower-case hex digits of n, at least one, left-padded
  // with '0' to N characters; a number that needs more digits is not cut.
  // ---------------------------------------------------------------------

  /** The digits of `{:x}`: no leading zero except for the number 0 itself. */
  function LowerHex(n: nat): (s: string)
    ensures 1 <= |s| && IsLowerHexString(s)
    ensures s[0] == '0' <==> n == 0
    decreases n
  {
    if n < 16 then [LowerDigit(n)] else LowerHex(n / 16) + [LowerDigit(n % 16)]
  }

  /** `format!("{:0width$x}", n)`: never shorter than `width`, and the
      fixed-width reference whenever n fits in `width` digits. */
  function ZeroPadded(n: nat, width: nat): (s: string)
    ensures |s| >= width && IsLowerHexString(s)
    ensures 1 <= width && n < Pow(16, width) ==> s == FixedWidth(n, width)
  {
    FixedWidthWhenFits(n, width);
    var digits := LowerHex(n);
    if |digits| < width then Zeros(width - |digits|) + digits else digits
  }

  /** Reference definition: the last `width` hex digits of n, most
      significant first, so always exactly `width` lower-case digits. */
  function FixedWidth(n: nat, width: nat): (s: string)
    ensures |s| == width && IsLowerHexString(s)
  {
    if width == 0 then [] else FixedWidth(n / 16, width - 1) + [LowerDigit(n % 16)]
  }

  lemma {:induction false} FixedWidthOfZero(width: nat)
    ensures FixedWidth(0, width) == Zeros(width)
  {
    if width > 0 {
      FixedWidthOfZero(width - 1);
    }
  }

  lemma {:induction false} PowAtLeastBase(base: nat, k: nat)
    requires 1 <= base && 1 <= k
    ensures base <= Pow(base, k)
  {
    if k > 1 {
      PowAtLeastBase(base, k - 1);
    }
  }

  /** The digits of n fit in `width` places exactly when n < 16^width. */
  lemma {:induction false} LowerHexFits(n: nat, width: nat)
    requires 1 <= width
    ensures |LowerHex(n)| <= width <==> n < Pow(16, width)
    decreases n
  {
    PowAtLeastBase(16, width);
    if n >= 16 {
      if width == 1 {
        assert |LowerHex(n)| == |LowerHex(n / 16)| + 1;
      } else {
        LowerHexFits(n / 16, width - 1);
        assert n / 16 < Pow(16, width - 1) <==> n < 16 * Pow(16, width - 1);
      }
    }
  }

  /** When the number fits, the padded text is the fixed-width reference. */
  lemma {:induction false} FixedWidthIsPaddedDigits(n: nat, width: nat)
    requires 1 <= width && n < Pow(16, width)
    ensures |LowerHex(n)| <= width
    ensures FixedWidth(n, width) == Zeros(width - |LowerHex(n)|) + LowerHex(n)
    decreases n
  {
    LowerHexFits(n, width);
    if n < 16 {
      FixedWidthOfZero(width - 1);
    } else {
      PowAtLeastBase(16, width);
      assert width >= 2;
      assert n / 16 < Pow(16, width - 1);
      FixedWidthIsPaddedDigits(n / 16, width - 1);
      assert Zeros(width - |LowerHex(n)|) == Zeros(width - 1 - |LowerHex(n / 16)|);
    }
  }

  lemma FixedWidthWhenFits(n: nat, width: nat)
    ensures 1 <= width && n < Pow(16, width) ==>
              && |LowerHex(n)| <= width
              && FixedWidth(n, width) == Zeros(width - |LowerHex(n)|) + LowerHex(n)
  {
    if 1 <= width && n < Pow(16, width) {
      FixedWidthIsPaddedDigits(n, width);
    }
  }

  /** `{:0Nx}` gives exactly N characters if and only if n < 16^N; a larger
      number overflows the width. */
  lemma ZeroPaddedLength(n: nat, width: nat)
    requires 1 <= width
    ensures |ZeroPadded(n, width)| == width <==> n < Pow(16, width)
    ensures |ZeroPadded(n, width)| >= width
  {
    LowerHexFits(n, width);
  }

  /** The largest number of a width prints as all 'f'. */
  lemma {:induction false} FixedWidthOfMax(width: nat)
    ensures Pow(16, width) >= 1
    ensures FixedWidth(Pow(16, width) - 1, width) == seq(width, _ => 'f')
  {
    if width > 0 {
      FixedWidthOfMax(width - 1);
      var p := Pow(16, width - 1);
      assert Pow(16, width) - 1 == 16 * (p - 1) + 15;
      assert (Pow(16, width) - 1) / 16 == p - 1;
      assert (Pow(16, width) - 1) % 16 == 15;
    }
  }

  // ---------------------------------------------------------------------
  // `hex::decode`: odd length first, then the first character that is not
  // a hex digit (either case), else one byte per pair of digits.
  // ---------------------------------------------------------------------

  function PairValue(hi: char, lo: char): (b: uint8)
    requires IsHexDigit(hi) && IsHexDigit(lo)
  {
    DigitValue(hi) * 16 + DigitValue(lo)
  }

  /** Decodes pairs of digits; `offset` is the index of s[0] in the text
      passed to `hex::decode`, reported with an invalid character. */
  function DecodePairs(s: string, offset: nat): (r: Result<seq<uint8>, HexError>)
    requires |s| % 2 == 0
    ensures r.Ok? <==> IsHexString(s)
    ensures r.Ok? ==>
              && IsHexString(s) && |r.value| == |s| / 2
              && forall k :: 0 <= k < |s| / 2 ==> r.value[k] == PairValue(s[2 * k], s[2 * k + 1])
    ensures r.Err? ==>
              && r.error.InvalidHexCharacter?
              && offset <= r.error.index < offset + |s|
              && r.error.c == s[r.error.index - offset] && !IsHexDigit(r.error.c)
              && IsHexString(s[..r.error.index - offset])
    decreases |s|
  {
    if s == [] then Ok([])
    else if !IsHexDigit(s[0]) then Err(InvalidHexCharacter(s[0], offset))
    else if !IsHexDigit(s[1]) then Err(InvalidHexCharacter(s[1], offset + 1))
    else
      match DecodePairs(s[2..], offset + 2)
      case Err(e) =>
        assert s[..e.index - offset] == s[..2] + s[2..][..e.index - offset - 2];
        Err(e)
      case Ok(rest) =>
        assert forall k :: 1 <= k < |s| / 2 ==> s[2 * k] == s[2..][2 * (k - 1)];
        Ok([PairValue(s[0], s[1])] + rest)
  }

  /** `hex::decode(s)`. */
  function Decode(s: string): (r: Result<seq<uint8>, HexError>)
    ensures r.Ok? <==> |s| % 2 == 0 && IsHexString(s)
    ensures |s| % 2 != 0 ==> r == Err(OddLength)
    ensures r.Ok? ==>
              && |r.value| == |s| / 2
              && forall k :: 0 <= k < |s| / 2 ==> r.value[k] == PairValue(s[2 * k], s[2 * k + 1])
  {
    if |s| % 2 != 0 then Err(OddLength) else DecodePairs(s, 0)
  }

  /** `hex::encode(bytes)`: two lower-case digits per byte. */
  function Encode(bytes: seq<uint8>): (s: string)
    ensures |s| == 2 * |bytes| && IsLowerHexString(s)
  {
    if bytes == [] then ""
    else [LowerDigit(bytes[0] / 16), LowerDigit(bytes[0] % 16)] + Encode(bytes[1..])
  }

  /** Decoding a concatenation of two even-length hex texts decodes each part. */
  lemma DecodeConcat(a: string, b: string)
    requires |a| % 2 == 0 && IsHexString(a) && |b| % 2 == 0 && IsHexString(b)
    ensures Decode(a + b) == Ok(Decode(a).value + Decode(b).value)
  {
    var ab := a + b;
    assert IsHexString(ab) by {
      forall k | 0 <= k < |ab| ensures IsHexDigit(ab[k]) {
        if k < |a| { assert ab[k] == a[k]; } else { assert ab[k] == b[k - |a|]; }
      }
    }
    var whole, left, right := Decode(ab).value, Decode(a).value, Decode(b).value;
    assert |whole| == |left + right|;
    forall k | 0 <= k < |whole| ensures whole[k] == (left + right)[k] {
      if k < |a| / 2 {
        assert ab[2 * k] == a[2 * k] && ab[2 * k + 1] == a[2 * k + 1];
      } else {
        assert ab[2 * k] == b[2 * (k - |a| / 2)];
        assert ab[2 * k + 1] == b[2 * (k - |a| / 2) + 1];
      }
    }
    assert whole == left + right;
  }

  /** Decoding accepts either letter case and gives the same bytes. */
  lemma DecodeIgnoresCase(s: string)
    ensures Decode(ToLower(s)).Ok? == Decode(s).Ok?
    ensures Decode(s).Ok? ==> Decode(ToLower(s)) == Decode(s)
  {
    var t := ToLower(s);
    assert forall k :: 0 <= k < |s| ==> (IsHexDigit(t[k]) <==> IsHexDigit(s[k]));
    if Decode(s).Ok? {
      assert forall k :: 0 <= k < |s| ==> DigitValue(t[k]) == DigitValue(s[k]);
      assert Decode(t).value == Decode(s).value;
    }
  }

  /** Encoding then decoding gives the bytes back. */
  lemma DecodeEncode(bytes: seq<uint8>)
    ensures Decode(Encode(bytes)) == Ok(bytes)
  {
    var s := Encode(bytes);
    EncodeAt(bytes);
    LowerHexIsHex(s);
    var out := Decode(s).value;
    forall k | 0 <= k < |bytes| ensures out[k] == bytes[k] {
      assert s[2 * k] == LowerDigit(bytes[k] / 16) && s[2 * k + 1] == LowerDigit(bytes[k] % 16);
    }
    assert out == bytes;
  }

  lemma {:induction false} EncodeAt(bytes: seq<uint8>)
    ensures forall k :: 0 <= k < |bytes| ==>
      Encode(bytes)[2 * k] == LowerDigit(bytes[k] / 16) &&
      Encode(bytes)[2 * k + 1] == LowerDigit(bytes[k] % 16)
  {
    if bytes != [] {
      EncodeAt(bytes[1..]);
      var s := Encode(bytes);
      assert forall k :: 1 <= k < |bytes| ==>
        s[2 * k] == Encode(bytes[1..])[2 * (k - 1)] && s[2 * k + 1] == Encode(bytes[1..])[2 * (k - 1) + 1];
    }
  }

  /** Decoding then encoding gives the text back, lower-cased. */
  lemma EncodeDecode(s: string)
    requires Decode(s).Ok?
    ensures Encode(Decode(s).value) == ToLower(s)
  {
    var bytes := Decode(s).value;
    EncodeAt(bytes);
    forall k | 0 <= k < |s| ensures Encode(bytes)[k] == ToLower(s)[k] {
      var j := k / 2;
      PairValueDigits(s[2 * j], s[2 * j + 1]);
      LowerDigitOfValue(s[k]);
      if k % 2 == 0 {
        assert k == 2 * j;
      } else {
        assert k == 2 * j + 1;
      }
    }
  }

  lemma PairValueDigits(hi: char, lo: char)
    requires IsHexDigit(hi) && IsHexDigit(lo)
    ensures PairValue(hi, lo) / 16 == DigitValue(hi) && PairValue(hi, lo) % 16 == DigitValue(lo)
  {
  }

  lemma LowerDigitOfValue(c: char)
    requires IsHexDigit(c)
    ensures LowerDigit(DigitValue(c)) == LowerChar(c)
  {
  }

  // ---------------------------------------------------------------------
  // Big-endian byte strings.
  // ---------------------------------------------------------------------

  /** The last k bytes of n, most significant first. */
  function BigEndian(n: nat, k: nat): (bs: seq<uint8>)
    ensures |bs| == k
  {
    if k == 0 then [] else BigEndian(n / 256, k - 1) + [n % 256]
  }

  /** The number a big-endian byte string spells. */
  function FromBigEndian(bs: seq<uint8>): (n: nat)
    ensures n < Pow(256, |bs|)
  {
    if bs == [] then 0
    else
      var high := FromBigEndian(bs[..|bs| - 1]);
      assert high * 256 + bs[|bs| - 1] < Pow(256, |bs|) by {
        assert high + 1 <= Pow(256, |bs| - 1);
        assert (high + 1) * 256 <= Pow(256, |bs| - 1) * 256;
      }
      high * 256 + bs[|bs| - 1]
  }

  lemma {:induction false} BigEndianRoundTrip(n: nat, k: nat)
    requires n < Pow(256, k)
    ensures FromBigEndian(BigEndian(n, k)) == n
  {
    if k > 0 {
      assert n / 256 < Pow(256, k - 1);
      BigEndianRoundTrip(n / 256, k - 1);
      var bs := BigEndian(n, k);
      assert bs[..k - 1] == BigEndian(n / 256, k - 1);
    }
  }

  lemma {:induction false} FromBigEndianRoundTrip(bs: seq<uint8>)
    ensures BigEndian(FromBigEndian(bs), |bs|) == bs
  {
    if bs != [] {
      var init := bs[..|bs| - 1];
      FromBigEndianRoundTrip(init);
      var n := FromBigEndian(bs);
      assert n / 256 == FromBigEndian(init) && n % 256 == bs[|bs| - 1];
      assert bs == init + [bs[|bs| - 1]];
    }
  }

  lemma DivMod256(n: nat)
    ensures n / 16 / 16 == n / 256
    ensures n / 16 % 16 * 16 + n % 16 == n % 256
  {
    var q, r := n / 16, n % 16;
    var q2, r2 := q / 16, q % 16;
    assert n == 256 * q2 + (16 * r2 + r);
    assert 0 <= 16 * r2 + r < 256;
  }

  /** 2k hex digits of n decode to the k big-endian bytes of n. */
  lemma {:induction false} DecodeFixedWidth(n: nat, k: nat)
    ensures Decode(FixedWidth(n, 2 * k)) == Ok(BigEndian(n, k))
  {
    if k > 0 {
      DecodeFixedWidth(n / 256, k - 1);
      DivMod256(n);
      var high := FixedWidth(n / 256, 2 * (k - 1));
      var pair := [LowerDigit(n / 16 % 16), LowerDigit(n % 16)];
      assert FixedWidth(n, 2 * k) == high + pair;
      DecodeConcat(high, pair);
      assert Decode(pair).value == [n % 256];
    }
  }
}
