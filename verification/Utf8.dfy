/** Well-formed UTF-8, as String::from_utf8 and read_line require (section 4 of RFC 3629). */
module Utf8 {

  predicate Continuation(b: char) {
    0x80 <= b as int <= 0xBF
  }

  /** The length of the character that starts the bytes, or 0 when none is well formed. */
  function CharLength(s: string): (n: nat)
    requires s != []
    ensures n <= |s|
  {
    var b := s[0] as int;
    if b < 0x80 then 1
    else if 0xC2 <= b <= 0xDF && |s| >= 2 && Continuation(s[1]) then 2
    else if 0xE0 <= b <= 0xEF && |s| >= 3 && Continuation(s[1]) && Continuation(s[2])
            && (b == 0xE0 ==> s[1] as int >= 0xA0) && (b == 0xED ==> s[1] as int < 0xA0) then 3
    else if 0xF0 <= b <= 0xF4 && |s| >= 4 && Continuation(s[1]) && Continuation(s[2]) && Continuation(s[3])
            && (b == 0xF0 ==> s[1] as int >= 0x90) && (b == 0xF4 ==> s[1] as int < 0x90) then 4
    else 0
  }

  predicate Valid(s: string) {
    s != [] ==> CharLength(s) > 0 && Valid(s[CharLength(s)..])
  }

  lemma {:induction false} AsciiValid(s: string)
    requires forall i :: 0 <= i < |s| ==> s[i] as int < 0x80
    ensures Valid(s)
  {
    if s != [] {
      AsciiValid(s[1..]);
    }
  }

  lemma SameStart(a: string, b: string)
    requires a != [] && CharLength(a) > 0
    ensures CharLength(a + b) == CharLength(a)
  {
    var s := a + b;
    assert forall i :: 0 <= i < |a| ==> s[i] == a[i];
  }

  lemma {:induction false} ValidConcat(a: string, b: string)
    requires Valid(a)
    ensures Valid(a + b) == Valid(b)
    decreases |a|
  {
    if a == [] {
      assert a + b == b;
    } else {
      SameStart(a, b);
      var n := CharLength(a);
      assert (a + b)[n..] == a[n..] + b;
      ValidConcat(a[n..], b);
    }
  }

  // Validity is being the encoding of characters (section 3 of RFC 3629).

  predicate Scalar(n: nat) {
    n < 0xD800 || 0xE000 <= n <= 0x10FFFF
  }

  function EncodeChar(n: nat): (r: string)
    requires Scalar(n)
    ensures r != []
  {
    if n < 0x80 then [n as char]
    else if n < 0x800 then [(0xC0 + n / 64) as char, (0x80 + n % 64) as char]
    else if n < 0x1_0000 then
      [(0xE0 + n / 4096) as char, (0x80 + n / 64 % 64) as char, (0x80 + n % 64) as char]
    else
      [(0xF0 + n / 262144) as char, (0x80 + n / 4096 % 64) as char,
       (0x80 + n / 64 % 64) as char, (0x80 + n % 64) as char]
  }

  predicate AllScalar(chars: seq<nat>) {
    forall i :: 0 <= i < |chars| ==> Scalar(chars[i])
  }

  function EncodeAll(chars: seq<nat>): string
    requires AllScalar(chars)
  {
    if chars == [] then "" else EncodeChar(chars[0]) + EncodeAll(chars[1..])
  }

  lemma EncodedLength(n: nat, rest: string)
    requires Scalar(n)
    ensures CharLength(EncodeChar(n) + rest) == |EncodeChar(n)|
  {
    var e := EncodeChar(n);
    assert forall i :: 0 <= i < |e| ==> (e + rest)[i] == e[i];
  }

  lemma DecodeTwo(s: string) returns (n: nat)
    requires |s| >= 2 && CharLength(s) == 2
    ensures Scalar(n) && EncodeChar(n) == s[..2]
  {
    n := (s[0] as int - 0xC0) * 64 + (s[1] as int - 0x80);
    assert n / 64 == s[0] as int - 0xC0 && n % 64 == s[1] as int - 0x80;
  }

  lemma DecodeThree(s: string) returns (n: nat)
    requires |s| >= 3 && CharLength(s) == 3
    ensures Scalar(n) && EncodeChar(n) == s[..3]
  {
    var a, b, c := s[0] as int - 0xE0, s[1] as int - 0x80, s[2] as int - 0x80;
    n := a * 4096 + b * 64 + c;
    assert n / 64 == a * 64 + b && n % 64 == c;
    assert n / 4096 == a && n / 64 % 64 == b;
  }

  lemma DecodeFour(s: string) returns (n: nat)
    requires |s| >= 4 && CharLength(s) == 4
    ensures Scalar(n) && EncodeChar(n) == s[..4]
  {
    var a, b, c, d := s[0] as int - 0xF0, s[1] as int - 0x80, s[2] as int - 0x80, s[3] as int - 0x80;
    n := a * 262144 + b * 4096 + c * 64 + d;
    assert n / 64 == a * 4096 + b * 64 + c && n % 64 == d;
    assert n / 4096 == a * 64 + b && n / 64 % 64 == c;
    assert n / 262144 == a && n / 4096 % 64 == b;
  }

  lemma DecodeChar(s: string) returns (n: nat)
    requires s != [] && CharLength(s) > 0
    ensures Scalar(n) && EncodeChar(n) == s[..CharLength(s)]
  {
    if CharLength(s) == 1 {
      n := s[0] as int;
    } else if CharLength(s) == 2 {
      n := DecodeTwo(s);
    } else if CharLength(s) == 3 {
      n := DecodeThree(s);
    } else {
      n := DecodeFour(s);
    }
  }

  lemma {:induction false} Decodes(s: string) returns (chars: seq<nat>)
    requires Valid(s)
    ensures AllScalar(chars) && EncodeAll(chars) == s
    decreases |s|
  {
    hide CharLength, EncodeChar, Scalar;
    if s == [] {
      chars := [];
    } else {
      var n := DecodeChar(s);
      var rest := Decodes(s[CharLength(s)..]);
      chars := [n] + rest;
      assert chars[1..] == rest;
    }
  }

  lemma {:induction false} EncodedValid(chars: seq<nat>)
    requires AllScalar(chars)
    ensures Valid(EncodeAll(chars))
  {
    hide CharLength, EncodeChar, Scalar;
    if chars != [] {
      var e, rest := EncodeChar(chars[0]), EncodeAll(chars[1..]);
      EncodedLength(chars[0], rest);
      assert (e + rest)[|e|..] == rest;
      EncodedValid(chars[1..]);
    }
  }

  /** Bytes are valid exactly when they encode some characters. */
  lemma ValidExactly(s: string)
    ensures Valid(s) <==> exists chars: seq<nat> :: AllScalar(chars) && EncodeAll(chars) == s
  {
    if Valid(s) {
      var chars := Decodes(s);
    }
    forall chars: seq<nat> | AllScalar(chars)
      ensures Valid(EncodeAll(chars))
    {
      EncodedValid(chars);
    }
  }
}
