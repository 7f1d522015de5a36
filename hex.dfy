/**
 * Go's `encoding/hex` as the program uses it: `EncodeToString` turns random
 * bytes into invite tokens and file-name suffixes, and `DecodeString` reads
 * uploaded image data.
 */
module Hex {

  /** A byte. */
  type Byte = b: int | 0 <= b < 256

  /** A lower-case hexadecimal digit, `0-9a-f`. */
  predicate IsLowerDigit(c: char)
  {
    '0' <= c <= '9' || 'a' <= c <= 'f'
  }

  /** The lower-case digit for a nibble (`0123456789abcdef`). */
  function Digit(n: int): (c: char)
    requires 0 <= n < 16
    ensures IsLowerDigit(c)
  {
    if n < 10 then ('0' as int + n) as char else ('a' as int + n - 10) as char
  }

  /** `hex.EncodeToString`: two lower-case digits per byte, high nibble first. */
  function EncodeToString(bs: seq<Byte>): (s: string)
    ensures |s| == 2 * |bs|
  {
    if bs == [] then ""
    else [Digit(bs[0] / 16), Digit(bs[0] % 16)] + EncodeToString(bs[1..])
  }

  /** Every character is a lower-case hexadecimal digit. */
  predicate IsLowerHex(s: string)
  {
    forall i :: 0 <= i < |s| ==> IsLowerDigit(s[i])
  }

  lemma {:induction false} EncodeIsLowerHex(bs: seq<Byte>)
    ensures IsLowerHex(EncodeToString(bs))
  {
    if bs != [] {
      EncodeIsLowerHex(bs[1..]);
      var s := EncodeToString(bs);
      forall i | 0 <= i < |s| ensures IsLowerDigit(s[i]) {
        if i >= 2 {
          assert s[i] == EncodeToString(bs[1..])[i - 2];
        }
      }
    }
  }

  /** The value of a hexadecimal digit of either case. */
  function FromHexChar(c: char): (r: int)
    ensures -1 <= r < 16
    ensures r >= 0 <==> IsLowerDigit(c) || 'A' <= c <= 'F'
    ensures IsLowerDigit(c) ==> Digit(r) == c
  {
    if '0' <= c <= '9' then c as int - '0' as int
    else if 'a' <= c <= 'f' then c as int - 'a' as int + 10
    else if 'A' <= c <= 'F' then c as int - 'A' as int + 10
    else -1
  }

  /** The error values of `hex.DecodeString`. */
  datatype DecodeError = ErrLength | InvalidByteError(c: char)

  datatype Decoded = Bytes(value: seq<Byte>) | Failed(err: DecodeError)

  /**
   * `hex.DecodeString`: pairs of digits of either case, checked pair by pair
   * (first digit first); a trailing single character is reported as an invalid
   * byte when it is not a digit, and as an odd length otherwise.
   */
  function DecodeString(s: string): (r: Decoded)
    ensures r.Bytes? ==> 2 * |r.value| == |s|
  {
    if |s| == 0 then Bytes([])
    else if |s| == 1 then
      if FromHexChar(s[0]) < 0 then Failed(InvalidByteError(s[0])) else Failed(ErrLength)
    else if FromHexChar(s[0]) < 0 then Failed(InvalidByteError(s[0]))
    else if FromHexChar(s[1]) < 0 then Failed(InvalidByteError(s[1]))
    else
      match DecodeString(s[2..])
      case Failed(e) => Failed(e)
      case Bytes(rest) => Bytes([FromHexChar(s[0]) * 16 + FromHexChar(s[1])] + rest)
  }

  lemma DigitValue(n: int)
    requires 0 <= n < 16
    ensures FromHexChar(Digit(n)) == n
  {
  }

  /** One pair of digits in front of a decodable rest. */
  lemma DecodePair(s: string, rest: seq<Byte>)
    requires |s| >= 2 && FromHexChar(s[0]) >= 0 && FromHexChar(s[1]) >= 0
    requires DecodeString(s[2..]) == Bytes(rest)
    ensures DecodeString(s) == Bytes([FromHexChar(s[0]) * 16 + FromHexChar(s[1])] + rest)
  {
  }

  /** Decoding what was encoded gives the bytes back. */
  lemma {:induction false} DecodeEncode(bs: seq<Byte>)
    ensures DecodeString(EncodeToString(bs)) == Bytes(bs)
  {
    if bs != [] {
      var s := EncodeToString(bs);
      DigitValue(bs[0] / 16);
      DigitValue(bs[0] % 16);
      assert s[2..] == EncodeToString(bs[1..]);
      DecodeEncode(bs[1..]);
      DecodePair(s, bs[1..]);
      assert bs == [bs[0] / 16 * 16 + bs[0] % 16] + bs[1..];
    }
  }

  /** A string of odd length never decodes. */
  lemma {:induction false} OddLengthFails(s: string)
    requires |s| % 2 == 1
    ensures DecodeString(s).Failed?
  {
    if |s| > 1 {
      OddLengthFails(s[2..]);
    }
  }

  /** The digits of a byte built from two nibbles are those nibbles. */
  lemma PairDigits(hi: int, lo: int)
    requires 0 <= hi < 16 && 0 <= lo < 16
    ensures 0 <= hi * 16 + lo < 256
    ensures (hi * 16 + lo) / 16 == hi && (hi * 16 + lo) % 16 == lo
  {
  }

  lemma LowerHexTail(s: string)
    requires IsLowerHex(s) && |s| >= 2
    ensures IsLowerHex(s[2..])
  {
    forall i | 0 <= i < |s[2..]| ensures IsLowerDigit(s[2..][i]) {
      assert s[2..][i] == s[i + 2];
    }
  }

  /** Encoding one byte in front of the rest. */
  lemma EncodeCons(b: Byte, rest: seq<Byte>)
    ensures EncodeToString([b] + rest) == [Digit(b / 16), Digit(b % 16)] + EncodeToString(rest)
  {
    assert ([b] + rest)[1..] == rest;
  }

  /** A lower-case hex string that decodes is what its bytes encode to. */
  lemma {:induction false} EncodeDecode(s: string)
    requires IsLowerHex(s) && DecodeString(s).Bytes?
    ensures EncodeToString(DecodeString(s).value) == s
  {
    if |s| >= 2 {
      LowerHexTail(s);
      EncodeDecode(s[2..]);
      var rest := DecodeString(s[2..]).value;
      DecodePair(s, rest);
      var hi, lo := FromHexChar(s[0]), FromHexChar(s[1]);
      assert IsLowerDigit(s[0]) && IsLowerDigit(s[1]);
      PairDigits(hi, lo);
      var b: Byte := hi * 16 + lo;
      EncodeCons(b, rest);
      assert s == [s[0], s[1]] + s[2..];
    }
  }
}
