/** The stdio framing of crates/folk-transport/src/lib.rs: the message reader, the writer of
    run_stdio, and that the reader undoes the writer. Input is the bytes still unread. */
module Stdio {
  import opened Wrappers
  import opened Text
  import Utf8

  const PREFIX := "content-length:"

  /** One line with its terminator, or what is left. */
  function TakeLine(input: string): (r: (string, string))
    ensures input == r.0 + r.1
    ensures input != "" ==> |r.1| < |input|
  {
    var i := IndexOf(input, '\n');
    var n := if i < |input| then i + 1 else i;
    (input[..n], input[n..])
  }

  datatype Skipped = AtBody(rest: string) | Eof | BadLine

  /** Header lines up to and including the blank one. */
  function SkipHeaders(input: string): (r: Skipped)
    ensures r.AtBody? ==> |r.rest| < |input|
    decreases |input|
  {
    if input == "" then Eof
    else
      var (line, rest) := TakeLine(input);
      if !Utf8.Valid(line) then BadLine
      else if Trim(line) == "" then AtBody(rest)
      else SkipHeaders(rest)
  }

  /** An error ends run_stdio, so nothing is said of the input after one. */
  datatype Read = Message(body: string, rest: string) | End | Failed

  function DeclaredLength(header: string): nat
    requires |header| >= |PREFIX|
  {
    match ParseUnsigned(Trim(header[|PREFIX|..]), USIZE_MAX)
    case Some(n) => n
    case None => 0
  }

  predicate IsLengthHeader(line: string): (r: bool)
    ensures r ==> |line| >= |PREFIX|
  {
    |PREFIX| <= |line| && Lower(line)[..|PREFIX|] == PREFIX
  }

  function ReadMessage(input: string): (r: Read)
    ensures r.Message? ==> |r.rest| < |input|
    decreases |input|
  {
    if input == "" then End
    else
      var (line, rest) := TakeLine(input);
      var trimmed := Trim(line);
      if !Utf8.Valid(line) then Failed
      else if trimmed == "" then ReadMessage(rest)
      else if !IsLengthHeader(trimmed) then Message(trimmed, rest)
      else
        var len := DeclaredLength(trimmed);
        match SkipHeaders(rest)
        case Eof => End
        case BadLine => Failed
        case AtBody(body) => if |body| < len then Failed else Message(body[..len], body[len..])
  }

  /** All messages up to the end of input or an error, and whether it was the end. */
  function ReadAll(input: string): (seq<string>, bool)
    decreases |input|
  {
    match ReadMessage(input)
    case End => ([], true)
    case Failed => ([], false)
    case Message(body, rest) =>
      var (bodies, ended) := ReadAll(rest);
      ([body] + bodies, ended)
  }

  datatype Got = Body(body: string) | EndOfInput | Error

  /** The buffered reader: its input shrinks as it is read. */
  class Reader {
    var input: string

    constructor (input: string)
      ensures this.input == input
    {
      this.input := input;
    }

    /** None is invalid UTF-8; the empty line is end of input. */
    method ReadLine() returns (line: Option<string>)
      modifies this
      ensures var (taken, rest) := TakeLine(old(input));
              && input == rest
              && line == if Utf8.Valid(taken) then Some(taken) else None
    {
      var (taken, rest) := TakeLine(input);
      input := rest;
      line := if Utf8.Valid(taken) then Some(taken) else None;
    }

    method ReadStdioMessage() returns (got: Got)
      modifies this
      ensures match ReadMessage(old(input))
              case Message(body, rest) => got == Body(body) && input == rest
              case End => got == EndOfInput
              case Failed => got == Error
      decreases |input|
    {
      hide Utf8.Valid, IndexOf, Trim, IsLengthHeader, DeclaredLength;
      Utf8.AsciiValid("");
      var firstLine := ReadLine();
      if firstLine == None {
        return Error;
      }
      if firstLine == Some("") {
        return EndOfInput;
      }
      var trimmed := Trim(firstLine.value);
      if trimmed == "" {
        got := ReadStdioMessage();
        return;
      }
      if !IsLengthHeader(trimmed) {
        return Body(trimmed);
      }
      var len := DeclaredLength(trimmed);
      ghost var headers := input;
      while true
        invariant SkipHeaders(input) == SkipHeaders(headers)
        decreases |input|
      {
        var line := ReadLine();
        if line == None {
          return Error;
        }
        if line == Some("") {
          return EndOfInput;
        }
        if Trim(line.value) == "" {
          break;
        }
      }
      assert SkipHeaders(headers) == AtBody(input);
      if |input| < len {
        return Error;
      }
      got := Body(input[..len]);
      input := input[len..];
    }
  }

  // Reading back what was written.

  lemma TakeOneLine(line: string, rest: string)
    requires OneLine(line)
    ensures TakeLine(line + "\n" + rest) == (line + "\n", rest)
  {
    IndexOfFirst(line, '\n', rest);
    var s := line + "\n" + rest;
    assert s[..|line| + 1] == line + "\n" && s[|line| + 1..] == rest;
  }

  lemma SpaceValid(s: string)
    requires AllSpace(s)
    ensures Utf8.Valid(s)
  {
    assert forall i :: 0 <= i < |s| ==> IsSpace(s[i]);
    Utf8.AsciiValid(s);
  }

  ghost predicate BlankLines(s: string) {
    AllSpace(s) && (s == "" || s[|s| - 1] == '\n')
  }

  lemma {:induction false} SkipBlanks(blanks: string, rest: string)
    requires BlankLines(blanks)
    ensures ReadMessage(blanks + rest) == ReadMessage(rest)
    decreases |blanks|
  {
    hide Utf8.Valid, IndexOf, Trim, SkipHeaders, IsLengthHeader, DeclaredLength;
    if blanks == "" {
      assert blanks + rest == rest;
    } else {
      var line, others := FirstLine(blanks);
      assert blanks + rest == line + "\n" + (others + rest);
      TakeOneLine(line, others + rest);
      assert AllSpace(line + "\n") by {
        assert forall i :: 0 <= i <= |line| ==> (line + "\n")[i] == blanks[i];
      }
      TrimOfSpace(line + "\n");
      SpaceValid(line + "\n");
      assert AllSpace(others) by {
        assert forall i :: 0 <= i < |others| ==> others[i] == blanks[|line| + 1 + i];
      }
      SkipBlanks(others, rest);
    }
  }

  lemma {:induction false} OnlySpaceEnds(s: string)
    requires AllSpace(s)
    ensures ReadMessage(s) == End
    decreases |s|
  {
    hide Utf8.Valid, IndexOf, Trim, SkipHeaders, IsLengthHeader, DeclaredLength;
    if s != "" {
      var (line, rest) := TakeLine(s);
      assert AllSpace(line) by {
        assert forall i :: 0 <= i < |line| ==> line[i] == s[i];
      }
      assert AllSpace(rest) by {
        assert forall i :: 0 <= i < |rest| ==> rest[i] == s[|line| + i];
      }
      TrimOfSpace(line);
      SpaceValid(line);
      OnlySpaceEnds(rest);
    }
  }

  // One line of input.

  /** A line that holds just this text, in white space. */
  ghost predicate Holds(line: string, text: string) {
    OneLine(line) && Utf8.Valid(line) && Trim(line) == text
  }

  lemma LineRead(line: string, text: string, rest: string)
    requires Holds(line, text)
    ensures TakeLine(line + "\n" + rest) == (line + "\n", rest)
    ensures Utf8.Valid(line + "\n") && Trim(line + "\n") == text
  {
    hide Utf8.Valid, Trim;
    TakeOneLine(line, rest);
    TrimMore(line, '\n');
    SpaceValid("\n");
    Utf8.ValidConcat(line, "\n");
  }

  /** content-length and a colon, in any letter case. */
  ghost predicate StartsLength(text: string) {
    |text| >= 15 && SameLetters(text[..15], "content-length:")
  }

  lemma LengthHeaderExactly(text: string)
    ensures IsLengthHeader(text) <==> StartsLength(text)
  {
    if |text| >= 15 {
      assert Lower(text)[..15] == Lower(text[..15]);
      LowerExactly(text[..15], "content-length:");
    }
  }

  /** The number after the colon; 0 when there is none, or one out of range. */
  function HeaderLength(text: string): nat
    requires |text| >= 15
  {
    match ParseUnsigned(Trim(text[15..]), USIZE_MAX)
    case Some(n) => n
    case None => 0
  }

  // What each kind of input reads as.

  lemma LastTaken(line: string)
    requires OneLine(line)
    ensures TakeLine(line) == (line, "")
  {
    assert IndexOf(line, '\n') == |line|;
    assert line[..|line|] == line && line[|line|..] == "";
  }

  /** A line that is not blank and does not start a frame is itself a message. */
  lemma RawLineRead(line: string, text: string, rest: string)
    requires Holds(line, text) && text != "" && !StartsLength(text)
    ensures ReadMessage(line + "\n" + rest) == Message(text, rest)
    ensures ReadMessage(line) == Message(text, "")
  {
    hide Utf8.Valid, Trim, IsLengthHeader, DeclaredLength, SkipHeaders;
    LineRead(line, text, rest);
    LengthHeaderExactly(text);
    LastTaken(line);
    assert line != "" by {
      TrimOfSpace("");
    }
  }

  /** The header lines of a frame after its first, none of them blank. */
  ghost predicate HeaderLines(lines: seq<string>) {
    forall i :: 0 <= i < |lines| ==> Utf8.Valid(lines[i]) && OneLine(lines[i]) && Trim(lines[i]) != ""
  }

  function Block(lines: seq<string>): string {
    if lines == [] then "" else lines[0] + "\n" + Block(lines[1..])
  }

  lemma {:induction false} BlockSkipped(lines: seq<string>, rest: string)
    requires HeaderLines(lines)
    ensures SkipHeaders(Block(lines) + rest) == SkipHeaders(rest)
    decreases |lines|
  {
    hide Utf8.Valid, Trim, TakeLine;
    if lines == [] {
      assert Block(lines) + rest == rest;
    } else {
      assert Holds(lines[0], Trim(lines[0]));
      assert Block(lines) + rest == lines[0] + "\n" + (Block(lines[1..]) + rest);
      LineRead(lines[0], Trim(lines[0]), Block(lines[1..]) + rest);
      BlockSkipped(lines[1..], rest);
    }
  }

  /** A frame: a first line that declares a length, more header lines, a blank one, the body. */
  datatype Framed = Framed(first: string, text: string, headers: seq<string>, blank: string)

  ghost predicate WellFramed(f: Framed) {
    Holds(f.first, f.text) && StartsLength(f.text) && HeaderLines(f.headers) && Holds(f.blank, "")
  }

  function Heading(f: Framed): string {
    f.first + "\n" + Block(f.headers)
  }

  lemma HeadingRead(f: Framed, rest: string)
    requires WellFramed(f)
    ensures ReadMessage(Heading(f) + rest)
            == match SkipHeaders(rest)
               case Eof => End
               case BadLine => Failed
               case AtBody(body) =>
                 if |body| < HeaderLength(f.text) then Failed
                 else Message(body[..HeaderLength(f.text)], body[HeaderLength(f.text)..])
  {
    hide Utf8.Valid, Trim, TakeLine, SkipHeaders, IsLengthHeader;
    assert Heading(f) + rest == f.first + "\n" + (Block(f.headers) + rest);
    LineRead(f.first, f.text, Block(f.headers) + rest);
    LengthHeaderExactly(f.text);
    BlockSkipped(f.headers, rest);
  }

  /** After the blank line come exactly as many bytes as declared; fewer are an error. */
  lemma FramedRead(f: Framed, body: string, rest: string)
    requires WellFramed(f)
    ensures |body| == HeaderLength(f.text) ==>
              ReadMessage(Heading(f) + f.blank + "\n" + body + rest) == Message(body, rest)
    ensures |body| < HeaderLength(f.text) ==> ReadMessage(Heading(f) + f.blank + "\n" + body) == Failed
  {
    hide Utf8.Valid, Trim, TakeLine, Heading, WellFramed;
    assert Holds(f.blank, "") && |f.text| >= 15 by { BlankHolds(f); }
    LineRead(f.blank, "", body + rest);
    LineRead(f.blank, "", body);
    HeadingRead(f, f.blank + "\n" + (body + rest));
    HeadingRead(f, f.blank + "\n" + body);
    assert Heading(f) + f.blank + "\n" + body + rest == Heading(f) + (f.blank + "\n" + (body + rest));
    assert Heading(f) + f.blank + "\n" + body == Heading(f) + (f.blank + "\n" + body);
    assert |body| == HeaderLength(f.text) ==> (body + rest)[..|body|] == body && (body + rest)[|body|..] == rest;
  }

  lemma BlankHolds(f: Framed)
    requires WellFramed(f)
    ensures Holds(f.blank, "") && |f.text| >= 15
  {
  }

  /** Input that ends among the header lines ends the session, and a line that is not UTF-8,
      there or in front, is an error. */
  lemma HeadingCut(f: Framed, bad: string, rest: string)
    requires WellFramed(f) && OneLine(bad) && !Utf8.Valid(bad + "\n")
    ensures ReadMessage(Heading(f)) == End
    ensures ReadMessage(Heading(f) + (bad + "\n" + rest)) == Failed
    ensures ReadMessage(bad + "\n" + rest) == Failed
  {
    hide Utf8.Valid, Trim, TakeLine, Heading, WellFramed;
    assert |f.text| >= 15 by { BlankHolds(f); }
    HeadingRead(f, "");
    HeadingRead(f, bad + "\n" + rest);
    TakeOneLine(bad, rest);
    assert Heading(f) + "" == Heading(f);
  }

  // What run_stdio writes is such a frame.

  lemma WrittenHeader(n: nat)
    ensures var text := "Content-Length: " + PrintNat(n);
            Holds(text + "\r", text) && StartsLength(text) && (n <= USIZE_MAX ==> HeaderLength(text) == n)
  {
    hide Trim, PrintNat, HeaderLength, Utf8.Valid;
    var text := "Content-Length: " + PrintNat(n);
    PrintIsPlain(n);
    PlainText("Content-Length: ", PrintNat(n));
    TrimPadded("", text, "\r");
    assert "" + text + "\r" == text + "\r";
    WrittenLength(n);
  }

  lemma WrittenLength(n: nat)
    ensures HeaderLength("Content-Length: " + PrintNat(n)) == if n <= USIZE_MAX then n else 0
  {
    hide Trim, ParseUnsigned, PrintNat;
    var digits := PrintNat(n);
    PrintIsPlain(n);
    assert ("Content-Length: " + digits)[15..] == " " + digits + "";
    TrimPadded(" ", digits, "");
    ParsePrint(n, USIZE_MAX);
  }

  lemma PlainText(head: string, digits: string)
    requires head == "Content-Length: " && AllDigits(digits) && digits != ""
    ensures OneLine(head + digits + "\r") && Utf8.Valid(head + digits + "\r") && Trimmed(head + digits)
  {
    var line := head + digits + "\r";
    assert forall i :: 0 <= i < |digits| ==> IsDigit(digits[i]);
    assert forall i :: 0 <= i < |line| ==> line[i] as int < 0x80 && line[i] != '\n';
    Utf8.AsciiValid(line);
  }

  lemma WrittenFramed(n: nat) returns (f: Framed)
    requires n <= USIZE_MAX
    ensures WellFramed(f) && HeaderLength(f.text) == n
    ensures Heading(f) + f.blank + "\n" == "Content-Length: " + PrintNat(n) + "\r\n\r\n"
  {
    hide Utf8.Valid, Trim, PrintNat, HeaderLength, StartsLength;
    var text := "Content-Length: " + PrintNat(n);
    f := Framed(text + "\r", text, [], "\r");
    WrittenHeader(n);
    TrimOfSpace("\r");
    SpaceValid("\r");
  }

  lemma FrameRead(body: string, rest: string)
    requires |body| <= USIZE_MAX
    ensures ReadMessage("Content-Length: " + PrintNat(|body|) + "\r\n\r\n" + body + rest) == Message(body, rest)
  {
    hide PrintNat, ReadMessage, WellFramed, Heading, HeaderLength, StartsLength;
    var f := WrittenFramed(|body|);
    FramedRead(f, body, rest);
  }

  // A whole session.

  datatype Item = Raw(line: string, text: string) | InFrame(frame: Framed, bytes: string)

  ghost predicate WellFormed(item: Item) {
    match item
    case Raw(line, text) => Holds(line, text) && text != "" && !StartsLength(text)
    case InFrame(frame, bytes) => WellFramed(frame) && |bytes| == HeaderLength(frame.text)
  }

  function ItemText(item: Item): string {
    match item
    case Raw(line, _) => line + "\n"
    case InFrame(frame, bytes) => Heading(frame) + frame.blank + "\n" + bytes
  }

  function ItemBody(item: Item): string {
    if item.Raw? then item.text else item.bytes
  }

  lemma ItemRead(item: Item, rest: string)
    requires WellFormed(item)
    ensures ReadMessage(ItemText(item) + rest) == Message(ItemBody(item), rest)
  {
    hide ReadMessage, Holds, StartsLength, HeaderLines, Heading;
    match item
    case Raw(line, text) => RawLineRead(line, text, rest);
    case InFrame(frame, bytes) => FramedRead(frame, bytes, rest);
  }

  function Bodies(items: seq<Item>): seq<string> {
    if items == [] then [] else [ItemBody(items[0])] + Bodies(items[1..])
  }

  /** Items, each after any blank lines, then white space to the end of input. */
  function Stream(blanks: seq<string>, items: seq<Item>, tail: string): string
    requires |blanks| == |items|
  {
    if items == [] then tail
    else blanks[0] + (ItemText(items[0]) + Stream(blanks[1..], items[1..], tail))
  }

  /** Reading any series of raw lines and frames gives exactly their texts and bodies, in order,
      whatever bytes the bodies hold, and then end of input. */
  lemma {:induction false} ReadBack(blanks: seq<string>, items: seq<Item>, tail: string)
    requires |blanks| == |items| && AllSpace(tail)
    requires forall i :: 0 <= i < |blanks| ==> BlankLines(blanks[i])
    requires forall i :: 0 <= i < |items| ==> WellFormed(items[i])
    ensures ReadAll(Stream(blanks, items, tail)) == (Bodies(items), true)
    decreases |items|
  {
    hide ReadMessage, ItemText, WellFormed;
    if items == [] {
      OnlySpaceEnds(tail);
      assert Stream(blanks, items, tail) == tail;
    } else {
      var rest := Stream(blanks[1..], items[1..], tail);
      SkipBlanks(blanks[0], ItemText(items[0]) + rest);
      ItemRead(items[0], rest);
      ReadBack(blanks[1..], items[1..], tail);
    }
  }
}
