/** `createSignatureMessage`: the bytes a wallet signs for a challenge,
      'R' ++ challenge bytes ++ length field ++ address (UTF-8) ++ origin (UTF-8),
    hashed with BLAKE2b and printed as hex. BLAKE2b (RFC 7693) is foreign
    code and is a parameter here.
 */
module SignatureMessage {
  import opened Wrappers
  import opened Bytes
  import opened Unicode

  /** `Buffer.from('R', 'ascii')`: the ASCII code of 'R'. */
  const Prefix: byte := 0x52

  /** The length field as the source builds it:
      `Buffer.from(length.toString(16), 'hex')`. */
  function LengthSegment(length: nat): (seg: seq<byte>)
    ensures |seg| == |NatToHex(length)| / 2
  {
    NatToHexDenotes(length);
    HexDecodeLength(NatToHex(length));
    HexDecode(NatToHex(length))
  }

  /** Below 16 the length prints as one digit, which the hex decoder drops:
      the length field is empty. */
  lemma LengthSegmentBelow16(length: nat)
    requires length < 16
    ensures LengthSegment(length) == []
  {
    NatToHexLength(length);
  }

  /** From 16 to 255 the length field is the single byte `length`. */
  lemma LengthSegmentOneByte(length: nat)
    requires 16 <= length < 256
    ensures LengthSegment(length) == [length as byte]
  {
    NatToHexLength(length);
    NatToHexDenotes(length);
    var digits := NatToHex(length);
    assert HexNumeral(digits[..1]) == HexValue(digits[0]);
    assert HexDecode(digits) == [(16 * HexValue(digits[0]) + HexValue(digits[1])) as byte] + HexDecode(digits[2..]);
  }

  /** From 256 to 4095 the length prints as three digits and the last is
      dropped: the field is one byte holding `length / 16`. */
  lemma LengthSegmentThreeDigits(length: nat)
    requires 256 <= length < 4096
    ensures LengthSegment(length) == [(length / 16) as byte]
  {
    NatToHexLength(length);
    NatToHexDenotes(length);
    var digits := NatToHex(length);
    assert HexNumeral(digits[..2]) == 16 * HexNumeral(digits[..1]) + HexValue(digits[1]) by {
      assert digits[..2][..1] == digits[..1];
    }
    assert HexNumeral(digits[..1]) == HexValue(digits[0]);
    assert HexDecode(digits) == [(16 * HexValue(digits[0]) + HexValue(digits[1])) as byte] + HexDecode(digits[2..]);
  }

  /** Lengths 16 and 256 get the same length byte, 0x10: the field does
      not tell a 16-character address from a 256-character one. */
  lemma LengthByteShared()
    ensures LengthSegment(256) == LengthSegment(16) == [0x10]
  {
    LengthSegmentOneByte(16);
    LengthSegmentThreeDigits(256);
  }

  /** The buffer that is hashed: the 'R' byte, then the challenge bytes,
      and the UTF-8 origin, unprefixed, at the very end. The length field
      counts the address's UTF-16 code units (`.length`), not its UTF-8
      bytes; MessageBufferLayout places it and the address. */
  function MessageBuffer(challenge: string, address: string, origin: string): (buf: seq<byte>)
    ensures 1 + |HexDecode(challenge)| + |Utf8Encode(origin)| <= |buf|
    ensures buf[0] == Prefix
    ensures buf[1..1 + |HexDecode(challenge)|] == HexDecode(challenge)
    ensures buf[|buf| - |Utf8Encode(origin)|..] == Utf8Encode(origin)
  {
    Assemble(HexDecode(challenge), LengthSegment(Utf16Length(address)), Utf8Encode(address), Utf8Encode(origin))
  }

  /** Between the challenge and the origin lie the length field and then
      the UTF-8 address, and nothing else. */
  lemma MessageBufferLayout(challenge: string, address: string, origin: string)
    ensures var buf := MessageBuffer(challenge, address, origin);
      var c, l := |HexDecode(challenge)|, |LengthSegment(Utf16Length(address))|;
      && |buf| == 1 + c + l + |Utf8Encode(address)| + |Utf8Encode(origin)|
      && buf[1 + c..1 + c + l] == LengthSegment(Utf16Length(address))
      && buf[1 + c + l..|buf| - |Utf8Encode(origin)|] == Utf8Encode(address)
  {
  }

  /** The prefix followed by the four parts, with each part where a reader
      expects it. */
  function Assemble(c: seq<byte>, l: seq<byte>, a: seq<byte>, o: seq<byte>): (buf: seq<byte>)
    ensures |buf| == 1 + |c| + |l| + |a| + |o|
    ensures buf[0] == Prefix
    ensures buf[1..1 + |c|] == c
    ensures buf[1 + |c|..1 + |c| + |l|] == l
    ensures buf[1 + |c| + |l|..1 + |c| + |l| + |a|] == a
    ensures buf[|buf| - |o|..] == o
  {
    var buf := [Prefix] + c + l + a + o;
    assert buf == [Prefix] + (c + (l + (a + o)));
    buf
  }

  /** The three variable fields of a signing message. */
  datatype Fields = Fields(challenge: seq<byte>, address: seq<byte>, origin: seq<byte>)

  /** Reads a buffer with a one-byte length field back into its fields,
      given how many bytes the challenge takes. */
  function ParseMessage(buf: seq<byte>, challengeLength: nat): Option<Fields> {
    var start := 2 + challengeLength;
    if |buf| < start || buf[0] != Prefix then None
    else
      var length := buf[1 + challengeLength] as int;
      if |buf| < start + length then None
      else Some(Fields(buf[1..1 + challengeLength], buf[start..start + length], buf[start + length..]))
  }

  /** A buffer with a one-byte length field in front of the address
      parses back into the parts it was made of. */
  lemma ParseLayout(c: seq<byte>, a: seq<byte>, o: seq<byte>)
    requires |a| < 256
    ensures ParseMessage(Assemble(c, [|a| as byte], a, o), |c|) == Some(Fields(c, a, o))
  {
    var buf := Assemble(c, [|a| as byte], a, o);
    assert buf[1 + |c|] == buf[1 + |c|..2 + |c|][0];
  }

  /** For an ASCII address of 16 to 255 characters the buffer parses back
      into challenge bytes, address bytes and origin bytes. */
  lemma {:induction false} ParseMessageBuffer(challenge: string, address: string, origin: string)
    requires IsAscii(address) && 16 <= |address| <= 255
    ensures ParseMessage(MessageBuffer(challenge, address, origin), |HexDecode(challenge)|)
         == Some(Fields(HexDecode(challenge), Utf8Encode(address), Utf8Encode(origin)))
  {
    AsciiEncoding(address);
    LengthSegmentOneByte(|address|);
    ParseLayout(HexDecode(challenge), Utf8Encode(address), Utf8Encode(origin));
  }

  /** With challenges of equal byte length and ASCII addresses of 16 to
      255 characters, equal buffers come from equal inputs: different
      (address, origin) pairs never collide. */
  lemma {:induction false} MessageBufferInjective(c1: string, a1: string, o1: string,
                               c2: string, a2: string, o2: string)
    requires |HexDecode(c1)| == |HexDecode(c2)|
    requires IsAscii(a1) && 16 <= |a1| <= 255
    requires IsAscii(a2) && 16 <= |a2| <= 255
    requires MessageBuffer(c1, a1, o1) == MessageBuffer(c2, a2, o2)
    ensures HexDecode(c1) == HexDecode(c2) && a1 == a2 && o1 == o2
  {
    ParseMessageBuffer(c1, a1, o1);
    ParseMessageBuffer(c2, a2, o2);
    Utf8Injective(a1, a2);
    Utf8Injective(o1, o2);
  }

  /** The length field counts code units, not bytes: for an address made
      of two-byte characters (such as 'é') the field says half the number
      of address bytes that follow. */
  lemma LengthFieldCountsCodeUnits(address: string)
    requires 16 <= |address| < 256
    requires forall i :: 0 <= i < |address| ==> 0x80 <= address[i] as int < 0x800
    ensures LengthSegment(Utf16Length(address)) == [|address| as byte]
    ensures |Utf8Encode(address)| == 2 * |address|
  {
    TwoByteText(address);
    LengthSegmentOneByte(|address|);
  }

  lemma {:induction false} TwoByteText(s: string)
    requires forall i :: 0 <= i < |s| ==> 0x80 <= s[i] as int < 0x800
    ensures Utf16Length(s) == |s| && |Utf8Encode(s)| == 2 * |s|
  {
    if s != [] {
      assert forall i :: 0 <= i < |s[1..]| ==> s[1..][i] == s[i + 1];
      TwoByteText(s[1..]);
    }
  }

  datatype MessageError = CouldNotHashMessage(jsError: JsError)
  {
    function Reason(): string { "couldNotHashMessage" }
  }

  /** Hash the buffer and print the digest as lower-case hex; a hashing
      failure becomes `couldNotHashMessage` carrying the exception. */
  function CreateSignatureMessage(challenge: string, dAppDefinitionAddress: string, origin: string,
                                  blake2b: seq<byte> -> Result<seq<byte>, JsError>): (r: Result<string, MessageError>)
    ensures var h := blake2b(MessageBuffer(challenge, dAppDefinitionAddress, origin));
      && (h.Ok? <==> r.Ok?)
      && (h.Ok? ==> HexDecode(r.value) == h.value && |r.value| == 2 * |h.value|)
      && (h.Ok? ==> forall i :: 0 <= i < |r.value| ==> IsLowerHexDigit(r.value[i]))
      && (h.Err? ==> r == Err(CouldNotHashMessage(h.error)))
  {
    match blake2b(MessageBuffer(challenge, dAppDefinitionAddress, origin))
    case Ok(hash) =>
      HexRoundTrip(hash);
      Ok(HexEncode(hash))
    case Err(jsError) => Err(CouldNotHashMessage(jsError))
  }

  /** The source as written: with an address shorter than 16 characters
      the length field vanishes, so moving a character from the end of the
      address to the front of the origin gives the same buffer. */
  lemma ShortAddressCollision(challenge: string)
    ensures MessageBuffer(challenge, "ab", "c") == MessageBuffer(challenge, "a", "bc")
  {
    ShortAddressBuffer(challenge, "ab", "c");
    ShortAddressBuffer(challenge, "a", "bc");
    assert Utf8Encode("ab") + Utf8Encode("c") == [0x61, 0x62, 0x63];
    assert Utf8Encode("a") + Utf8Encode("bc") == [0x61, 0x62, 0x63];
  }

  lemma ShortAddressBuffer(challenge: string, address: string, origin: string)
    requires Utf16Length(address) < 16
    ensures MessageBuffer(challenge, address, origin) == [Prefix] + HexDecode(challenge) + (Utf8Encode(address) + Utf8Encode(origin))
  {
    LengthSegmentBelow16(Utf16Length(address));
  }

  /** The layout as intended: one length byte holding the address's UTF-8
      byte count, for every address short enough to fit it. */
  function CorrectedMessageBuffer(challenge: string, address: string, origin: string): (r: Option<seq<byte>>)
    ensures r.None? <==> |Utf8Encode(address)| > 255
    ensures r.Some? ==> |r.value| == 2 + |HexDecode(challenge)| + |Utf8Encode(address)| + |Utf8Encode(origin)|
  {
    var a := Utf8Encode(address);
    if |a| > 255 then None
    else Some(Assemble(HexDecode(challenge), [|a| as byte], a, Utf8Encode(origin)))
  }

  /** Every buffer of the intended layout reads back into the challenge
      bytes, the address bytes and the origin bytes. */
  lemma {:induction false} CorrectedParsesBack(challenge: string, address: string, origin: string)
    requires |Utf8Encode(address)| <= 255
    ensures ParseMessage(CorrectedMessageBuffer(challenge, address, origin).value, |HexDecode(challenge)|)
            == Some(Fields(HexDecode(challenge), Utf8Encode(address), Utf8Encode(origin)))
  {
    ParseLayout(HexDecode(challenge), Utf8Encode(address), Utf8Encode(origin));
  }

  /** The corrected layout never collides: equal buffers (for challenges
      of equal byte length) come from equal inputs, whatever the length
      or alphabet of the address. */
  lemma {:induction false} CorrectedMessageBufferInjective(c1: string, a1: string, o1: string,
                                        c2: string, a2: string, o2: string)
    requires |HexDecode(c1)| == |HexDecode(c2)|
    requires CorrectedMessageBuffer(c1, a1, o1).Some?
    requires CorrectedMessageBuffer(c1, a1, o1) == CorrectedMessageBuffer(c2, a2, o2)
    ensures HexDecode(c1) == HexDecode(c2) && a1 == a2 && o1 == o2
  {
    CorrectedParsesBack(c1, a1, o1);
    CorrectedParsesBack(c2, a2, o2);
    Utf8Injective(a1, a2);
    Utf8Injective(o1, o2);
  }

  /** For the addresses used in practice (ASCII, 16 to 255 characters) the
      corrected layout is the one the source builds. */
  lemma {:induction false} CorrectedAgreesOnLongAscii(challenge: string, address: string, origin: string)
    requires IsAscii(address) && 16 <= |address| <= 255
    ensures CorrectedMessageBuffer(challenge, address, origin) == Some(MessageBuffer(challenge, address, origin))
  {
    AsciiEncoding(address);
    LengthSegmentOneByte(|address|);
  }
}
