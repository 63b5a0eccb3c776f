/** Text as the crates read it: trimming, lines, first-separator splits, unsigned decimals.
    A byte is the character with that code, so ASCII literals can be written as strings. */
module Text {
  import opened Wrappers

  /** A byte, written as the character with the same code. */
  type Byte = c: char | c as int < 256 witness ' '

  type Bytes = seq<Byte>

  /** The largest usize of a 64-bit host. */
  const USIZE_MAX: nat := 0xFFFF_FFFF_FFFF_FFFF

  /** The ASCII part of Unicode's white space: U+0009 to U+000D and the space. */
  predicate IsSpace(c: char) {
    c == ' ' || '\t' <= c <= '\r'
  }

  predicate OneLine(s: string) {
    forall i :: 0 <= i < |s| ==> s[i] != '\n'
  }

  ghost predicate AllSpace(s: string) {
    forall i :: 0 <= i < |s| ==> IsSpace(s[i])
  }

  function TrimStart(s: string): (r: string)
    ensures r != [] ==> !IsSpace(r[0])
    ensures OneLine(s) ==> OneLine(r)
  {
    if s != [] && IsSpace(s[0]) then TrimStart(s[1..]) else s
  }

  function TrimEnd(s: string): (r: string)
    ensures r != [] ==> !IsSpace(r[|r| - 1])
    ensures |r| <= |s| && r == s[..|r|]
  {
    if s != [] && IsSpace(s[|s| - 1]) then TrimEnd(s[..|s| - 1]) else s
  }

  function Trim(s: string): (r: string)
    ensures Trimmed(r)
    ensures OneLine(s) ==> OneLine(r)
  {
    TrimEnd(TrimStart(s))
  }

  /** No white space at either end. */
  predicate Trimmed(s: string) {
    s != [] ==> !IsSpace(s[0]) && !IsSpace(s[|s| - 1])
  }

  lemma {:induction false} TrimStartPadded(before: string, s: string)
    requires AllSpace(before) && (s != [] ==> !IsSpace(s[0]))
    ensures TrimStart(before + s) == s
  {
    if before == [] {
      assert before + s == s;
    } else {
      assert (before + s)[0] == before[0] && (before + s)[1..] == before[1..] + s;
      TrimStartPadded(before[1..], s);
    }
  }

  lemma {:induction false} TrimEndPadded(s: string, after: string)
    requires AllSpace(after) && (s != [] ==> !IsSpace(s[|s| - 1]))
    ensures TrimEnd(s + after) == s
  {
    if after == [] {
      assert s + after == s;
    } else {
      var whole, init := s + after, after[..|after| - 1];
      assert whole[|whole| - 1] == after[|after| - 1] && whole[..|whole| - 1] == s + init;
      TrimEndPadded(s, init);
    }
  }

  /** White space around a trimmed text is exactly what trimming removes. */
  lemma TrimPadded(before: string, s: string, after: string)
    requires AllSpace(before) && AllSpace(after) && Trimmed(s)
    ensures Trim(before + s + after) == s
  {
    if s == [] {
      TrimStartPadded(before + after, "");
      assert before + s + after == before + after + "";
    } else {
      assert before + s + after == before + (s + after);
      TrimStartPadded(before, s + after);
      TrimEndPadded(s, after);
    }
  }

  lemma {:induction false} TrimStartParts(s: string) returns (before: string)
    ensures AllSpace(before) && s == before + TrimStart(s)
  {
    before := "";
    if s != [] && IsSpace(s[0]) {
      var rest := TrimStartParts(s[1..]);
      before := [s[0]] + rest;
      SpaceConcat([s[0]], rest);
      assert TrimStart(s) == TrimStart(s[1..]);
      hide TrimStart, AllSpace;
      assert s == [s[0]] + s[1..];
    }
  }

  lemma {:induction false} TrimEndParts(s: string) returns (after: string)
    ensures AllSpace(after) && s == TrimEnd(s) + after
  {
    after := "";
    if s != [] && IsSpace(s[|s| - 1]) {
      var init := TrimEndParts(s[..|s| - 1]);
      after := init + [s[|s| - 1]];
      SpaceConcat(init, [s[|s| - 1]]);
      assert TrimEnd(s) == TrimEnd(s[..|s| - 1]);
      hide TrimEnd, AllSpace;
      assert s == s[..|s| - 1] + [s[|s| - 1]];
    }
  }

  /** White space at the end of a text makes no difference once it is trimmed. */
  lemma TrimMore(s: string, c: char)
    requires IsSpace(c)
    ensures Trim(s + [c]) == Trim(s)
  {
    hide TrimStart, TrimEnd;
    var before := TrimStartParts(s);
    var after := TrimEndParts(TrimStart(s));
    assert s == before + Trim(s) + after;
    TrimPadded(before, Trim(s), after + [c]);
    assert s + [c] == before + Trim(s) + (after + [c]);
  }

  lemma WhiteSpace(c: char)
    ensures IsSpace(c) <==> c in {'\t', '\n', '\U{000b}', '\U{000c}', '\r', ' '}
  {
  }

  /** Trimming takes white space off both ends, all of it and nothing else. */
  lemma TrimExactly(s: string, core: string)
    ensures Trim(s) == core
            <==> Trimmed(core)
                 && exists before, after :: s == before + core + after && AllSpace(before) && AllSpace(after)
  {
    hide Trim;
    if Trim(s) == core {
      var before, after := TrimParts(s);
    }
    if Trimmed(core) && exists before, after :: s == before + core + after && AllSpace(before) && AllSpace(after) {
      var before, after :| s == before + core + after && AllSpace(before) && AllSpace(after);
      TrimPadded(before, core, after);
    }
  }

  /** White space around a text makes no difference once it is trimmed. */
  lemma TrimAround(before: string, s: string, after: string)
    requires AllSpace(before) && AllSpace(after)
    ensures Trim(before + s + after) == Trim(s)
  {
    hide Trim, AllSpace;
    var b, a := TrimParts(s);
    SpaceConcat(before, b);
    SpaceConcat(a, after);
    assert before + s + after == (before + b) + Trim(s) + (a + after);
    TrimPadded(before + b, Trim(s), a + after);
  }

  lemma SpaceConcat(a: string, b: string)
    requires AllSpace(a) && AllSpace(b)
    ensures AllSpace(a + b)
  {
  }

  lemma TrimParts(s: string) returns (before: string, after: string)
    ensures s == before + Trim(s) + after && AllSpace(before) && AllSpace(after)
  {
    hide TrimStart, TrimEnd;
    before := TrimStartParts(s);
    after := TrimEndParts(TrimStart(s));
  }

  lemma TrimOfTrimmed(s: string)
    requires Trimmed(s)
    ensures Trim(s) == s
  {
    TrimPadded("", s, "");
    assert "" + s + "" == s;
  }

  lemma TrimOfSpace(s: string)
    requires AllSpace(s)
    ensures Trim(s) == ""
  {
    TrimPadded(s, "", "");
    assert s + "" + "" == s;
  }

  /** The first index of c, or the length when c does not occur. */
  function IndexOf(s: string, c: char): (i: nat)
    ensures i <= |s|
    ensures i < |s| ==> s[i] == c
    ensures forall j :: 0 <= j < i ==> s[j] != c
  {
    if s == [] || s[0] == c then 0 else 1 + IndexOf(s[1..], c)
  }

  lemma IndexOfFirst(a: string, c: char, b: string)
    requires c !in a
    ensures IndexOf(a + [c] + b, c) == |a|
  {
    var s := a + [c] + b;
    assert s[|a|] == c;
    assert forall j :: 0 <= j < |a| ==> s[j] == a[j];
  }

  /** str::split_once with a one-character separator. */
  function SplitOnce(s: string, c: char): (r: Option<(string, string)>)
    ensures r.Some? ==> s == r.value.0 + [c] + r.value.1 && c !in r.value.0
    ensures r.None? ==> c !in s
  {
    var i := IndexOf(s, c);
    if i < |s| then Some((s[..i], s[i + 1..])) else None
  }

  lemma SplitOnceFirst(a: string, c: char, b: string)
    requires c !in a
    ensures SplitOnce(a + [c] + b, c) == Some((a, b))
  {
    IndexOfFirst(a, c, b);
    var s := a + [c] + b;
    assert s[..|a|] == a && s[|a| + 1..] == b;
  }

  function StripCr(line: string): (r: string)
    ensures OneLine(line) ==> OneLine(r)
  {
    if line != [] && line[|line| - 1] == '\r' then line[..|line| - 1] else line
  }

  /** str::lines: each line without its "\n" or "\r\n"; a last line needs no terminator. */
  function Lines(s: string): (r: seq<string>)
    ensures forall k :: 0 <= k < |r| ==> OneLine(r[k])
  {
    if s == [] then []
    else
      var i := IndexOf(s, '\n');
      if i < |s| then [StripCr(s[..i])] + Lines(s[i + 1..]) else [s]
  }

  lemma LinesCons(line: string, rest: string)
    requires OneLine(line)
    ensures Lines(line + "\n" + rest) == [StripCr(line)] + Lines(rest)
  {
    IndexOfFirst(line, '\n', rest);
    var s := line + "\n" + rest;
    assert s[..|line|] == line && s[|line| + 1..] == rest;
  }

  function ToLower(c: char): char {
    if 'A' <= c <= 'Z' then (c as int + 32) as char else c
  }

  function Lower(s: string): (r: string)
    ensures |r| == |s|
    ensures forall i :: 0 <= i < |s| ==> r[i] == ToLower(s[i])
  {
    seq(|s|, i requires 0 <= i < |s| => ToLower(s[i]))
  }

  /** The same text but for the letter case of s; lower has no capitals. */
  predicate SameLetters(s: string, lower: string) {
    |s| == |lower| && forall i :: 0 <= i < |s| ==>
      s[i] == lower[i] || ('A' <= s[i] <= 'Z' && s[i] as int + 32 == lower[i] as int)
  }

  lemma LowerExactly(s: string, lower: string)
    requires forall i :: 0 <= i < |lower| ==> !('A' <= lower[i] <= 'Z')
    ensures Lower(s) == lower <==> SameLetters(s, lower)
  {
    if Lower(s) == lower {
      assert forall i :: 0 <= i < |s| ==> ToLower(s[i]) == lower[i];
    }
  }

  predicate IsDigit(c: char) {
    '0' <= c <= '9'
  }

  predicate AllDigits(s: string) {
    forall i :: 0 <= i < |s| ==> IsDigit(s[i])
  }

  /** Decimal digits as Display prints an unsigned integer. */
  function PrintNat(n: nat): (r: string)
    ensures r != [] && AllDigits(r)
  {
    var last := [(n % 10 + '0' as int) as char];
    if n < 10 then last else PrintNat(n / 10) + last
  }

  function DigitsValue(s: string): nat
    requires AllDigits(s)
  {
    if s == [] then 0
    else DigitsValue(s[..|s| - 1]) * 10 + (s[|s| - 1] as int - '0' as int)
  }

  /** FromStr of an unsigned integer type whose largest value is max: an optional '+', then
      at least one digit, and no overflow. */
  function ParseUnsigned(s: string, max: nat): (r: Option<nat>)
    ensures r.Some? ==> r.value <= max
  {
    var digits := if s != [] && s[0] == '+' then s[1..] else s;
    if digits == [] || !AllDigits(digits) then None
    else if DigitsValue(digits) <= max then Some(DigitsValue(digits))
    else None
  }

  lemma {:induction false} DigitsOfPrint(n: nat)
    ensures DigitsValue(PrintNat(n)) == n
  {
    if n >= 10 {
      DigitsOfPrint(n / 10);
      var r := PrintNat(n);
      assert r[..|r| - 1] == PrintNat(n / 10);
    } else {
      assert PrintNat(n)[..0] == "";
    }
  }

  /** A printed number parses back exactly when it fits the integer type. */
  lemma ParsePrint(n: nat, max: nat)
    ensures ParseUnsigned(PrintNat(n), max) == if n <= max then Some(n) else None
  {
    DigitsOfPrint(n);
    assert IsDigit(PrintNat(n)[0]);
  }

  function Zeros(n: nat): (r: string)
    ensures |r| == n && AllDigits(r)
  {
    if n == 0 then "" else Zeros(n - 1) + "0"
  }

  lemma NoDigits()
    ensures DigitsValue("") == 0
  {
  }

  lemma DigitsSnoc(init: string, d: char)
    requires AllDigits(init) && IsDigit(d)
    ensures AllDigits(init + [d]) && DigitsValue(init + [d]) == 10 * DigitsValue(init) + (d as int - '0' as int)
  {
    assert (init + [d])[..|init|] == init;
  }

  lemma {:induction false} ZerosValue(k: nat, n: nat)
    ensures AllDigits(Zeros(k) + PrintNat(n)) && DigitsValue(Zeros(k) + PrintNat(n)) == n
  {
    var last := (n % 10 + '0' as int) as char;
    if n >= 10 {
      ZerosValue(k, n / 10);
      assert Zeros(k) + PrintNat(n) == Zeros(k) + PrintNat(n / 10) + [last];
      DigitsSnoc(Zeros(k) + PrintNat(n / 10), last);
    } else {
      OnlyZeros(k);
      DigitsSnoc(Zeros(k), last);
    }
  }

  lemma {:induction false} OnlyZeros(k: nat)
    ensures DigitsValue(Zeros(k)) == 0
  {
    if k > 0 {
      OnlyZeros(k - 1);
      DigitsSnoc(Zeros(k - 1), '0');
    }
  }

  lemma PrintSnoc(n: nat, v: nat)
    requires v < 10
    ensures PrintNat(v) == [(v + '0' as int) as char] && PrintNat(0) == "0"
    ensures n > 0 ==> PrintNat(10 * n + v) == PrintNat(n) + [(v + '0' as int) as char]
  {
  }

  /** Digits are zeros in front of a printed number. */
  lemma {:induction false} DigitsPrinted(s: string) returns (k: nat)
    requires AllDigits(s) && s != ""
    ensures s == Zeros(k) + PrintNat(DigitsValue(s))
  {
    var init, d := s[..|s| - 1], s[|s| - 1];
    var v := d as int - '0' as int;
    assert s == init + [d];
    DigitsSnoc(init, d);
    hide DigitsValue, PrintNat;
    if init == "" {
      k := 0;
      PrintSnoc(0, v);
      assert DigitsValue("") == 0 by { NoDigits(); }
      assert Zeros(0) + [d] == s;
    } else {
      k := DigitsPrinted(init);
      var n := DigitsValue(init);
      PrintSnoc(n, v);
      if n == 0 {
        assert Zeros(k) + "0" + [d] == Zeros(k + 1) + [d];
        k := k + 1;
      } else {
        assert Zeros(k) + PrintNat(n) + [d] == Zeros(k) + (PrintNat(n) + [d]);
      }
    }
  }

  /** What parses as an unsigned number: an optional plus, zeros, and the number as printed. */
  lemma ParseExactly(s: string, max: nat, n: nat)
    ensures ParseUnsigned(s, max) == Some(n)
            <==> n <= max && exists k: nat :: s == Zeros(k) + PrintNat(n) || s == "+" + Zeros(k) + PrintNat(n)
  {
    hide PrintNat, DigitsValue, Zeros;
    var digits := if s != [] && s[0] == '+' then s[1..] else s;
    if ParseUnsigned(s, max) == Some(n) {
      var k := DigitsPrinted(digits);
      assert s == Zeros(k) + PrintNat(n) || s == "+" + Zeros(k) + PrintNat(n);
    }
    if n <= max && exists k: nat :: s == Zeros(k) + PrintNat(n) || s == "+" + Zeros(k) + PrintNat(n) {
      var k: nat :| s == Zeros(k) + PrintNat(n) || s == "+" + Zeros(k) + PrintNat(n);
      ZerosValue(k, n);
      var plain := Zeros(k) + PrintNat(n);
      assert IsDigit(plain[0]) && digits == plain;
    }
  }

  /** Numbers are decimal. */
  lemma Decimal()
    ensures PrintNat(1_048_576) == "1048576" && PrintNat(90) == "90"
  {
    assert PrintNat(1_048) == "1048";
    assert PrintNat(1_048_57) == "104857";
  }

  lemma PrintIsPlain(n: nat)
    ensures Trimmed(PrintNat(n)) && OneLine(PrintNat(n))
  {
    var r := PrintNat(n);
    assert IsDigit(r[0]) && IsDigit(r[|r| - 1]);
    assert forall i :: 0 <= i < |r| ==> IsDigit(r[i]);
  }

  lemma LastLine(line: string)
    requires OneLine(line) && line != ""
    ensures Lines(line) == [line]
  {
  }

  lemma StripPlain(line: string)
    requires OneLine(line) && (line != "" ==> line[|line| - 1] != '\r')
    ensures StripCr(line) == line && StripCr(line + "\r") == line && OneLine(line + "\r")
  {
  }

  /** Both kinds of line end are taken off, and only they. */
  lemma LinesSplit(line: string, rest: string)
    requires OneLine(line) && (line != "" ==> line[|line| - 1] != '\r')
    ensures Lines(line + "\n" + rest) == [line] + Lines(rest)
    ensures Lines(line + "\r\n" + rest) == [line] + Lines(rest)
  {
    hide Lines, StripCr, OneLine;
    StripPlain(line);
    LinesCons(line, rest);
    LinesCons(line + "\r", rest);
    assert line + "\r\n" + rest == (line + "\r") + "\n" + rest;
  }

  lemma LinesEmpty()
    ensures Lines("") == []
  {
  }

  /** A text that ends its last line starts with a complete line. */
  lemma FirstLine(a: string) returns (line: string, rest: string)
    requires a != "" && a[|a| - 1] == '\n'
    ensures a == line + "\n" + rest && OneLine(line)
    ensures rest == "" || rest[|rest| - 1] == '\n'
  {
    var i := IndexOf(a, '\n');
    line, rest := a[..i], a[i + 1..];
  }

  lemma {:induction false} LinesConcat(a: string, b: string)
    requires a == "" || a[|a| - 1] == '\n'
    ensures Lines(a + b) == Lines(a) + Lines(b)
    decreases |a|
  {
    hide Lines;
    if a == "" {
      assert Lines("") == [] by { LinesEmpty(); }
      assert a + b == b;
    } else {
      var line, rest := FirstLine(a);
      LinesConcat(rest, b);
      LinesCons(line, rest);
      assert Lines(a + b) == [StripCr(line)] + Lines(rest + b) by {
        assert a + b == line + "\n" + (rest + b);
        LinesCons(line, rest + b);
      }
    }
  }
}
