/** Bytes and the hexadecimal conversions of Node.js that the signing
    message relies on:
    - `Buffer.from(s, 'hex')`           — HexDecode,
    - `buffer.toString('hex')`          — HexEncode,
    - `n.toString(16)` on a natural `n` — NatToHex.
 */
module Bytes {

  newtype byte = b: int | 0 <= b < 256

  /** The characters Node accepts as hexadecimal digits (either case). */
  predicate IsHexDigit(c: char) {
    ('0' <= c <= '9') || ('a' <= c <= 'f') || ('A' <= c <= 'F')
  }

  predicate IsLowerHexDigit(c: char) {
    ('0' <= c <= '9') || ('a' <= c <= 'f')
  }

  function HexValue(c: char): (v: nat)
    requires IsHexDigit(c)
    ensures v < 16
  {
    if '0' <= c <= '9' then c as int - '0' as int
    else if 'a' <= c <= 'f' then c as int - 'a' as int + 10
    else c as int - 'A' as int + 10
  }

  /** The lower-case digit JavaScript prints for `d`. */
  function HexChar(d: nat): (c: char)
    requires d < 16
    ensures IsLowerHexDigit(c) && IsHexDigit(c)
    ensures HexValue(c) == d
  {
    if d < 10 then ('0' as int + d) as char else ('a' as int + d - 10) as char
  }

  /** `Buffer.from(s, 'hex')`: consecutive digit pairs become bytes, high
      digit first; decoding stops at the first pair holding a non-hex
      character, and a trailing unpaired digit is dropped. */
  function HexDecode(s: string): (r: seq<byte>)
    ensures |r| <= |s| / 2
    decreases |s|
  {
    if |s| < 2 || !IsHexDigit(s[0]) || !IsHexDigit(s[1]) then []
    else [(16 * HexValue(s[0]) + HexValue(s[1])) as byte] + HexDecode(s[2..])
  }

  /** What HexDecode produces, pair by pair: byte `i` is the value of
      digits `2i` and `2i+1`, and decoding stopped early only at a pair
      that is not two hex digits. */
  lemma {:induction false} HexDecodePairs(s: string)
    ensures var r := HexDecode(s);
      && (forall i :: 0 <= i < |r| ==>
            IsHexDigit(s[2 * i]) && IsHexDigit(s[2 * i + 1]) &&
            r[i] as int == 16 * HexValue(s[2 * i]) + HexValue(s[2 * i + 1]))
      && (|r| < |s| / 2 ==> !(IsHexDigit(s[2 * |r|]) && IsHexDigit(s[2 * |r| + 1])))
    decreases |s|
  {
    if 2 <= |s| && IsHexDigit(s[0]) && IsHexDigit(s[1]) {
      var rest := HexDecode(s[2..]);
      HexDecodePairs(s[2..]);
      DecodedPairsShift(s, rest, HexDecode(s));
      assert |rest| < |s[2..]| / 2 ==> s[2..][2 * |rest|] == s[2 * |HexDecode(s)|];
    }
  }

  /** Moving one digit pair from the front of `s` onto the front of the
      decoded bytes keeps every byte lined up with its pair. */
  lemma DecodedPairsShift(s: string, rest: seq<byte>, r: seq<byte>)
    requires 2 <= |s| && IsHexDigit(s[0]) && IsHexDigit(s[1])
    requires |rest| <= |s[2..]| / 2
    requires forall i :: 0 <= i < |rest| ==>
               IsHexDigit(s[2..][2 * i]) && IsHexDigit(s[2..][2 * i + 1]) &&
               rest[i] as int == 16 * HexValue(s[2..][2 * i]) + HexValue(s[2..][2 * i + 1])
    requires r == [(16 * HexValue(s[0]) + HexValue(s[1])) as byte] + rest
    ensures forall i :: 0 <= i < |r| ==>
              IsHexDigit(s[2 * i]) && IsHexDigit(s[2 * i + 1]) &&
              r[i] as int == 16 * HexValue(s[2 * i]) + HexValue(s[2 * i + 1])
  {
    forall i | 1 <= i < |r|
      ensures IsHexDigit(s[2 * i]) && IsHexDigit(s[2 * i + 1]) &&
              r[i] as int == 16 * HexValue(s[2 * i]) + HexValue(s[2 * i + 1])
    {
      var j := i - 1;
      assert r[i] == rest[j];
      assert s[2..][2 * j] == s[2 * i];
      assert s[2..][2 * j + 1] == s[2 * i + 1];
    }
  }

  /** `buffer.toString('hex')`: two lower-case digits per byte. */
  function HexEncode(bs: seq<byte>): (s: string)
    ensures |s| == 2 * |bs|
    ensures forall i :: 0 <= i < |s| ==> IsLowerHexDigit(s[i])
  {
    if bs == [] then []
    else [HexChar(bs[0] as int / 16), HexChar(bs[0] as int % 16)] + HexEncode(bs[1..])
  }

  /** Decoding what `toString('hex')` printed gives back the bytes. */
  lemma {:induction false} HexRoundTrip(bs: seq<byte>)
    ensures HexDecode(HexEncode(bs)) == bs
  {
    if bs != [] {
      var s := HexEncode(bs);
      assert s[2..] == HexEncode(bs[1..]);
      HexRoundTrip(bs[1..]);
      assert bs == [bs[0]] + bs[1..];
    }
  }

  /** A string made only of hex digits decodes to half as many bytes
      (rounded down). */
  lemma HexDecodeLength(s: string)
    requires forall i :: 0 <= i < |s| ==> IsHexDigit(s[i])
    ensures |HexDecode(s)| == |s| / 2
  {
  }

  /** The number a string of hex digits denotes, most significant first. */
  function HexNumeral(s: string): nat
    requires forall i :: 0 <= i < |s| ==> IsHexDigit(s[i])
  {
    if s == [] then 0 else 16 * HexNumeral(s[..|s| - 1]) + HexValue(s[|s| - 1])
  }

  /** `n.toString(16)` for a natural number: lower-case digits, no leading
      zero, and "0" for zero. */
  function NatToHex(n: nat): (s: string)
    ensures 1 <= |s|
  {
    if n < 16 then [HexChar(n)] else NatToHex(n / 16) + [HexChar(n % 16)]
  }

  /** The digits `n.toString(16)` prints are lower-case hex digits, denote
      `n`, and do not start with a redundant zero. */
  lemma {:induction false} NatToHexDenotes(n: nat)
    ensures forall i :: 0 <= i < |NatToHex(n)| ==> IsLowerHexDigit(NatToHex(n)[i]) && IsHexDigit(NatToHex(n)[i])
    ensures HexNumeral(NatToHex(n)) == n
    ensures n >= 16 ==> NatToHex(n)[0] != '0'
  {
    if n >= 16 {
      NatToHexDenotes(n / 16);
      var s := NatToHex(n);
      assert s[..|s| - 1] == NatToHex(n / 16);
    }
  }

  /** The number of digits `n.toString(16)` prints is fixed by the range
      `n` lies in. */
  lemma {:induction false} NatToHexLength(n: nat)
    ensures n < 16 ==> |NatToHex(n)| == 1
    ensures 16 <= n < 256 ==> |NatToHex(n)| == 2
    ensures 256 <= n < 4096 ==> |NatToHex(n)| == 3
  {
    if n >= 16 {
      NatToHexLength(n / 16);
    }
  }
}
