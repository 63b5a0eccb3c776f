/** Base 16: the encoder of crates/folk-core/src/lib.rs, its bearer check, and the
    case-insensitive decoder the transport uses on identities (section 8 of RFC 4648). */
module Hex {
  import opened Wrappers
  import opened Text

  const HTTP_BEARER_BYTES: nat := 32
  const HTTP_BEARER_HEX_LEN: nat := HTTP_BEARER_BYTES * 2

  function Digit(n: nat): (c: char)
    requires n < 16
    ensures IsLowerHex(c)
  {
    (if n < 10 then '0' as int + n else 'a' as int + n - 10) as char
  }

  predicate IsLowerHex(c: char) {
    IsDigit(c) || 'a' <= c <= 'f'
  }

  function DigitValue(c: char): (v: Option<nat>)
    ensures v.Some? ==> v.value < 16
  {
    var code := c as int;
    if IsDigit(c) then Some(code - '0' as int)
    else if 'a' <= c <= 'f' then Some(code - 'a' as int + 10)
    else if 'A' <= c <= 'F' then Some(code - 'A' as int + 10)
    else None
  }

  function Encode(bytes: Bytes): (s: string)
    ensures |s| == 2 * |bytes|
    ensures forall i :: 0 <= i < |s| ==> IsLowerHex(s[i])
  {
    if bytes == [] then ""
    else [Digit(bytes[0] as int / 16), Digit(bytes[0] as int % 16)] + Encode(bytes[1..])
  }

  function Decode(s: string): (bytes: Option<Bytes>)
    ensures bytes.Some? ==> |s| == 2 * |bytes.value|
  {
    if s == "" then Some([])
    else if |s| == 1 then None
    else
      match (DigitValue(s[0]), DigitValue(s[1]), Decode(s[2..]))
      case (Some(high), Some(low), Some(rest)) => Some([(16 * high + low) as char] + rest)
      case _ => None
  }

  /** generate_hex: the bytes are the random ones, taken as input. */
  method GenerateHex(bytes: Bytes) returns (token: string)
    ensures token == Encode(bytes)
  {
    token := "";
    for i := 0 to |bytes|
      invariant token + Encode(bytes[i..]) == Encode(bytes)
    {
      var byte := bytes[i];
      token := token + [Digit(byte as int / 16), Digit(byte as int % 16)];
    }
  }

  predicate ValidHttpBearer(token: string) {
    |token| == HTTP_BEARER_HEX_LEN && forall i :: 0 <= i < |token| ==> IsLowerHex(token[i])
  }

  /** Sixteen digits in order; capitals are read but not written. */
  lemma DigitsExactly(c: char, n: nat)
    ensures DigitValue(c) == Some(n) <==> n < 16 && (c == "0123456789abcdef"[n] || c == "0123456789ABCDEF"[n])
    ensures n < 16 ==> Digit(n) == "0123456789abcdef"[n]
  {
  }

  /** Each byte is written as two digits, the high one first. */
  lemma {:induction false} EncodeAt(bytes: Bytes, i: nat)
    requires i < |bytes|
    ensures Encode(bytes)[2 * i] == "0123456789abcdef"[bytes[i] as int / 16]
    ensures Encode(bytes)[2 * i + 1] == "0123456789abcdef"[bytes[i] as int % 16]
  {
    DigitsExactly('0', bytes[i] as int / 16);
    DigitsExactly('0', bytes[i] as int % 16);
    hide Digit;
    if i > 0 {
      EncodeAt(bytes[1..], i - 1);
    }
  }

  lemma ValueOfDigit(n: nat)
    requires n < 16
    ensures DigitValue(Digit(n)) == Some(n)
  {
  }

  lemma {:induction false} DecodeEncode(bytes: Bytes)
    ensures Decode(Encode(bytes)) == Some(bytes)
  {
    if bytes != [] {
      var s, b := Encode(bytes), bytes[0] as int;
      DecodeEncode(bytes[1..]);
      assert s[2..] == Encode(bytes[1..]);
      ValueOfDigit(b / 16);
      ValueOfDigit(b % 16);
      assert s[0] == Digit(b / 16) && s[1] == Digit(b % 16);
      assert [bytes[0]] + bytes[1..] == bytes;
    }
  }

  lemma EncodeInjective(a: Bytes, b: Bytes)
    requires Encode(a) == Encode(b)
    ensures a == b
  {
    DecodeEncode(a);
    DecodeEncode(b);
  }

  lemma DigitOfValue(c: char)
    requires DigitValue(c).Some?
    ensures Digit(DigitValue(c).value) == ToLower(c)
  {
  }

  /** Whatever decodes is an encoding, up to letter case. */
  lemma {:induction false} EncodeDecode(s: string)
    requires Decode(s).Some?
    ensures Encode(Decode(s).value) == Lower(s)
  {
    if s != "" {
      EncodeDecode(s[2..]);
      DigitOfValue(s[0]);
      DigitOfValue(s[1]);
      var bytes, rest := Decode(s).value, Decode(s[2..]).value;
      assert bytes[1..] == rest && bytes[0] as int / 16 == DigitValue(s[0]).value
             && bytes[0] as int % 16 == DigitValue(s[1]).value;
      hide Decode, Digit, DigitValue, ToLower;
      assert Encode(bytes) == [ToLower(s[0]), ToLower(s[1])] + Encode(rest);
      hide Encode;
      assert Lower(s) == [ToLower(s[0]), ToLower(s[1])] + Lower(s[2..]);
    } else {
      assert Lower("") == "";
    }
  }

  lemma {:induction false} LowerHexDecodes(s: string)
    requires |s| % 2 == 0
    requires forall i :: 0 <= i < |s| ==> IsLowerHex(s[i])
    ensures Decode(s).Some? && Lower(s) == s
  {
    if s != "" {
      assert IsLowerHex(s[0]) && IsLowerHex(s[1]);
      LowerHexDecodes(s[2..]);
    }
  }

  /** The tokens the check accepts are exactly those the generator makes from 32 bytes. */
  lemma BearerExactlyGenerated(token: string)
    ensures ValidHttpBearer(token)
            <==> exists bytes: Bytes :: |bytes| == 32 && token == Encode(bytes)
  {
    if ValidHttpBearer(token) {
      LowerHexDecodes(token);
      EncodeDecode(token);
      assert token == Encode(Decode(token).value);
    }
  }
}
