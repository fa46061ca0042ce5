/** The two views of a JavaScript string the signing message mixes:
    - `.length`, which counts UTF-16 code units (Utf16Length),
    - `Buffer.from(s, 'utf-8')`, its UTF-8 bytes (Utf8Encode).
    A Dafny `char` is a Unicode scalar value, so every string here is well
    formed (no lone surrogates).
 */
module Unicode {
  import opened Bytes

  /** UTF-16 code units of one scalar value: two above the Basic
      Multilingual Plane, one otherwise. */
  function CodeUnits(c: char): (n: nat)
    ensures n == 1 || n == 2
  {
    if c as int >= 0x10000 then 2 else 1
  }

  /** JavaScript's `s.length`. */
  function Utf16Length(s: string): (n: nat)
    ensures |s| <= n <= 2 * |s|
  {
    if s == [] then 0 else CodeUnits(s[0]) + Utf16Length(s[1..])
  }

  /** The UTF-8 encoding of one scalar value (RFC 3629, section 3). The
      continuation bytes carry six bits each, low bits last. */
  function Utf8EncodeChar(c: char): (r: seq<byte>)
    ensures 1 <= |r| <= 4
  {
    var cp := c as int;
    if cp < 0x80 then [cp as byte]
    else if cp < 0x800 then [(0xC0 + cp / 64) as byte, (0x80 + cp % 64) as byte]
    else if cp < 0x10000 then
      [(0xE0 + cp / 64 / 64) as byte, (0x80 + cp / 64 % 64) as byte, (0x80 + cp % 64) as byte]
    else
      [(0xF0 + cp / 64 / 64 / 64) as byte, (0x80 + cp / 64 / 64 % 64) as byte,
       (0x80 + cp / 64 % 64) as byte, (0x80 + cp % 64) as byte]
  }

  /** `Buffer.from(s, 'utf-8')`. */
  function Utf8Encode(s: string): (r: seq<byte>)
    ensures |s| <= |r| <= 4 * |s|
  {
    if s == [] then [] else Utf8EncodeChar(s[0]) + Utf8Encode(s[1..])
  }

  predicate IsAscii(s: string) {
    forall i :: 0 <= i < |s| ==> s[i] as int < 0x80
  }

  /** How many bytes the encoding of a character takes, read off its
      first byte. */
  function SequenceLength(lead: byte): nat {
    if lead < 0x80 then 1 else if lead < 0xE0 then 2 else if lead < 0xF0 then 3 else 4
  }

  /** The scalar value a complete UTF-8 sequence stands for. */
  function DecodeSequence(bs: seq<byte>): int
    requires 1 <= |bs| <= 4
  {
    if |bs| == 1 then bs[0] as int
    else if |bs| == 2 then (bs[0] as int - 0xC0) * 64 + (bs[1] as int - 0x80)
    else if |bs| == 3 then ((bs[0] as int - 0xE0) * 64 + (bs[1] as int - 0x80)) * 64 + (bs[2] as int - 0x80)
    else (((bs[0] as int - 0xF0) * 64 + (bs[1] as int - 0x80)) * 64 + (bs[2] as int - 0x80)) * 64 + (bs[3] as int - 0x80)
  }

  /** The first byte of a character's encoding tells how long it is, and
      the whole sequence decodes back to the character. */
  lemma EncodeCharDecodes(c: char)
    ensures SequenceLength(Utf8EncodeChar(c)[0]) == |Utf8EncodeChar(c)|
    ensures DecodeSequence(Utf8EncodeChar(c)) == c as int
  {
    var cp := c as int;
    var q1 := cp / 64;
    var q2 := q1 / 64;
    var q3 := q2 / 64;
    assert cp == q1 * 64 + cp % 64;
    assert q1 == q2 * 64 + q1 % 64;
    assert q2 == q3 * 64 + q2 % 64;
  }

  /** Different characters have different encodings. */
  lemma Utf8EncodeCharInjective(c: char, d: char)
    requires Utf8EncodeChar(c) == Utf8EncodeChar(d)
    ensures c == d
  {
    EncodeCharDecodes(c);
    EncodeCharDecodes(d);
  }

  /** UTF-8 encoding loses nothing: equal bytes come from equal strings. */
  lemma {:induction false} Utf8Injective(s: string, t: string)
    requires Utf8Encode(s) == Utf8Encode(t)
    ensures s == t
  {
    if s != [] && t != [] {
      var es, et := Utf8EncodeChar(s[0]), Utf8EncodeChar(t[0]);
      var bs := Utf8Encode(s);
      assert bs == es + Utf8Encode(s[1..]);
      assert bs == et + Utf8Encode(t[1..]);
      EncodeCharDecodes(s[0]);
      EncodeCharDecodes(t[0]);
      assert es[0] == bs[0] == et[0];
      assert |es| == |et|;
      assert es == bs[..|es|] == et;
      Utf8EncodeCharInjective(s[0], t[0]);
      assert Utf8Encode(s[1..]) == bs[|es|..] == Utf8Encode(t[1..]);
      Utf8Injective(s[1..], t[1..]);
      assert s == [s[0]] + s[1..];
      assert t == [t[0]] + t[1..];
    }
  }

  /** For ASCII text the three measures agree and each character is its
      own byte. */
  lemma {:induction false} AsciiEncoding(s: string)
    requires IsAscii(s)
    ensures Utf16Length(s) == |s| == |Utf8Encode(s)|
    ensures forall i :: 0 <= i < |s| ==> Utf8Encode(s)[i] as int == s[i] as int
  {
    if s != [] {
      assert IsAscii(s[1..]) by {
        forall i | 0 <= i < |s[1..]| ensures s[1..][i] as int < 0x80 {
          assert s[1..][i] == s[i + 1];
        }
      }
      AsciiEncoding(s[1..]);
      var e := Utf8Encode(s);
      assert e == [s[0] as int as byte] + Utf8Encode(s[1..]);
      forall i | 1 <= i < |s| ensures e[i] as int == s[i] as int {
        assert e[i] == Utf8Encode(s[1..])[i - 1];
        assert s[i] == s[1..][i - 1];
      }
    }
  }
}
