/** The HTTP request reader and POST body of crates/folk-transport/src/lib.rs, over a byte
    stream that arrives in arbitrary pieces. */
module Http {
  import opened Wrappers
  import opened Text

  const MAX_HTTP_HEADER_BYTES: nat := 64 * 1024
  const MAX_HTTP_BODY_BYTES: nat := 1024 * 1024
  const READ_CHUNK: nat := 4096

  const CRLF_CRLF := "\r\n\r\n"
  const LF_LF := "\n\n"

  predicate OccursAt(haystack: string, needle: string, i: nat) {
    i + |needle| <= |haystack| && haystack[i..i + |needle|] == needle
  }

  lemma OccursInTail(s: string, needle: string, j: nat)
    requires 0 < j <= |s|
    ensures OccursAt(s, needle, j) == OccursAt(s[1..], needle, j - 1)
  {
    if j + |needle| <= |s| {
      assert s[j..j + |needle|] == s[1..][j - 1..j - 1 + |needle|];
    }
  }

  function FindBytes(haystack: string, needle: string): (r: Option<nat>)
    ensures r.Some? ==> OccursAt(haystack, needle, r.value)
    ensures forall j: nat :: j < (if r.Some? then r.value else |haystack| + 1) ==> !OccursAt(haystack, needle, j)
  {
    if OccursAt(haystack, needle, 0) then Some(0)
    else if haystack == "" then None
    else
      var rest := FindBytes(haystack[1..], needle);
      assert forall j: nat :: 0 < j <= |haystack| ==>
               OccursAt(haystack, needle, j) == OccursAt(haystack[1..], needle, j - 1) by {
        forall j: nat | 0 < j <= |haystack|
          ensures OccursAt(haystack, needle, j) == OccursAt(haystack[1..], needle, j - 1)
        {
          OccursInTail(haystack, needle, j);
        }
      }
      match rest
      case Some(i) => Some(i + 1)
      case None => None
  }

  /** Where the head ends, and how long the separator is. */
  function HeaderEnd(request: Bytes): (r: Option<(nat, nat)>)
    ensures r.Some? ==> r.value.1 <= 4 && r.value.0 + r.value.1 <= |request|
  {
    match FindBytes(request, CRLF_CRLF)
    case Some(offset) => Some((offset, 4))
    case None =>
      match FindBytes(request, LF_LF)
      case Some(offset) => Some((offset, 2))
      case None => None
  }

  function LineLength(line: string): Option<nat> {
    match SplitOnce(line, ':')
    case None => None
    case Some((name, value)) =>
      if Lower(name) == "content-length" then ParseUnsigned(Trim(value), USIZE_MAX) else None
  }

  function FirstLength(lines: seq<string>): nat {
    if lines == [] then 0
    else
      match LineLength(lines[0])
      case Some(n) => n
      case None => FirstLength(lines[1..])
  }

  /** The first content-length that parses, or 0. */
  function ContentLength(headers: Bytes): nat {
    FirstLength(Lines(headers))
  }

  ghost predicate HeaderLine(line: string, name: string, value: string) {
    line == name + ":" + value && ':' !in name
  }

  /** A line that declares the length n: content-length in any letter case, a colon, and a
      number, padded. */
  ghost predicate DeclaresLength(line: string, n: nat) {
    exists name, value :: HeaderLine(line, name, value) && SameLetters(name, "content-length")
      && ParseUnsigned(Trim(value), USIZE_MAX) == Some(n)
  }

  /** A line declares a length or contributes nothing: one with another name, one without a
      colon, and one whose value is no number in range. */
  lemma LineLengthExactly(line: string, n: nat)
    ensures LineLength(line) == Some(n) <==> DeclaresLength(line, n)
  {
    hide ParseUnsigned, Trim, Lower, SameLetters;
    match SplitOnce(line, ':')
    case None =>
      assert forall name, value :: HeaderLine(line, name, value) ==> ':' in name + ":" + value;
    case Some((name, value)) =>
      LowerExactly(name, "content-length");
      assert HeaderLine(line, name, value);
      forall name', value' | HeaderLine(line, name', value')
        ensures name' == name && value' == value
      {
        SplitOnceFirst(name', ':', value');
      }
  }

  /** In particular a number as printed, with white space around. */
  lemma PrintedLength(name: string, before: string, n: nat, after: string)
    requires SameLetters(name, "content-length") && AllSpace(before) && AllSpace(after) && n <= USIZE_MAX
    ensures DeclaresLength(name + ":" + (before + PrintNat(n) + after), n)
  {
    hide PrintNat, ParseUnsigned, Trim;
    PrintIsPlain(n);
    TrimPadded(before, PrintNat(n), after);
    ParsePrint(n, USIZE_MAX);
    assert HeaderLine(name + ":" + (before + PrintNat(n) + after), name, before + PrintNat(n) + after);
  }

  /** Lines that declare nothing: without a colon, or with another name in front of it. */
  lemma OtherHeader(name: string, value: string, n: nat)
    requires ':' !in name
    ensures !DeclaresLength(name, n)
    ensures !SameLetters(name, "content-length") ==> !DeclaresLength(name + ":" + value, n)
  {
    hide SameLetters, ParseUnsigned, Trim;
    forall name', value' | HeaderLine(name + ":" + value, name', value')
      ensures name' == name
    {
      SplitOnceFirst(name, ':', value);
      SplitOnceFirst(name', ':', value');
    }
    assert forall name', value' :: HeaderLine(name, name', value') ==> ':' in name' + ":" + value';
  }

  lemma {:induction false} FirstLengthSkips(before: seq<string>, lines: seq<string>)
    requires forall k, n: nat :: 0 <= k < |before| ==> !DeclaresLength(before[k], n)
    ensures FirstLength(before + lines) == FirstLength(lines)
  {
    hide LineLength, DeclaresLength;
    if before == [] {
      assert before + lines == lines;
    } else {
      assert (before + lines)[0] == before[0] && (before + lines)[1..] == before[1..] + lines;
      if LineLength(before[0]).Some? {
        LineLengthExactly(before[0], LineLength(before[0]).value);
      }
      FirstLengthSkips(before[1..], lines);
    }
  }

  /** The length found is the one the first such line of the head declares, wherever it is. */
  lemma ContentLengthDeclared(before: Bytes, line: Bytes, rest: Bytes, n: nat)
    requires before == "" || before[|before| - 1] == '\n'
    requires forall k, m: nat :: 0 <= k < |Lines(before)| ==> !DeclaresLength(Lines(before)[k], m)
    requires OneLine(line) && line != "" && line[|line| - 1] != '\r' && DeclaresLength(line, n)
    ensures ContentLength(before + line) == n
    ensures ContentLength(before + (line + "\r\n" + rest)) == n
  {
    hide Lines, LineLength, DeclaresLength;
    LineLengthExactly(line, n);
    LinesConcat(before, line);
    LinesConcat(before, line + "\r\n" + rest);
    FirstLengthSkips(Lines(before), Lines(line));
    FirstLengthSkips(Lines(before), Lines(line + "\r\n" + rest));
    LastLine(line);
    LinesSplit(line, rest);
  }

  /** A head none of whose lines declares a length, because none has the name, say, has none. */
  lemma NoLengthDeclared(head: Bytes)
    requires forall k, n: nat :: 0 <= k < |Lines(head)| ==> !DeclaresLength(Lines(head)[k], n)
    ensures ContentLength(head) == 0
  {
    hide Lines, DeclaresLength;
    FirstLengthSkips(Lines(head), []);
    assert Lines(head) + [] == Lines(head);
  }

  lemma LineLengthStrip(line: string)
    ensures LineLength(StripCr(line)) == LineLength(line)
  {
    hide Trim, ParseUnsigned, Lower;
    if StripCr(line) != line {
      var stripped := StripCr(line);
      assert line == stripped + "\r";
      match SplitOnce(stripped, ':')
      case None =>
        assert ':' !in line;
      case Some((name, value)) =>
        TrimMore(value, '\r');
        SplitOnceFirst(name, ':', value + "\r");
        assert line == name + ":" + (value + "\r");
    }
  }

  lemma {:induction false} FirstLengthConcat(a: seq<string>, b: seq<string>)
    requires FirstLength(a) > 0
    ensures FirstLength(a + b) == FirstLength(a)
  {
    hide LineLength;
    assert (a + b)[0] == a[0] && (a + b)[1..] == a[1..] + b;
    if LineLength(a[0]) == None {
      FirstLengthConcat(a[1..], b);
    }
  }

  lemma ConsLength(line: string, rest: seq<string>)
    ensures FirstLength([StripCr(line)] + rest)
            == match LineLength(line) case Some(n) => n case None => FirstLength(rest)
  {
    hide LineLength, StripCr;
    LineLengthStrip(line);
    assert ([StripCr(line)] + rest)[1..] == rest;
  }

  lemma FirstLineLength(line: Bytes, rest: Bytes)
    requires OneLine(line)
    ensures ContentLength(line + "\n" + rest)
            == match LineLength(line) case Some(n) => n case None => ContentLength(rest)
  {
    hide Lines, LineLength, StripCr, FirstLength;
    LinesCons(line, rest);
    ConsLength(line, Lines(rest));
  }

  /** Ending the last line changes no length. */
  lemma {:induction false} LengthTerminated(s: Bytes)
    ensures ContentLength(s + "\n") == ContentLength(s)
    decreases |s|
  {
    hide ContentLength, LineLength;
    var i := IndexOf(s, '\n');
    if i < |s| {
      var line, rest := s[..i], s[i + 1..];
      assert OneLine(line) && s == line + "\n" + rest && s + "\n" == line + "\n" + (rest + "\n");
      FirstLineLength(line, rest);
      FirstLineLength(line, rest + "\n");
      LengthTerminated(rest);
    } else {
      assert OneLine(s);
      OnlyLine(s);
    }
  }

  lemma OnlyLine(line: Bytes)
    requires OneLine(line)
    ensures ContentLength(line + "\n") == ContentLength(line)
  {
    hide Lines, LineLength, StripCr, FirstLength;
    LinesCons(line, "");
    LinesEmpty();
    assert line + "\n" + "" == line + "\n";
    ConsLength(line, []);
    EmptyLength();
    if line == "" {
      assert Lines(line) == [];
    } else {
      LastLine(line);
      LineLengthStrip(line);
      ConsLengthPlain(line);
    }
  }

  lemma EmptyLength()
    ensures FirstLength([]) == 0 && LineLength("") == None
  {
  }

  lemma ConsLengthPlain(line: string)
    ensures FirstLength([line]) == match LineLength(line) case Some(n) => n case None => 0
  {
    assert [line][1..] == [];
  }

  /** A length that a head declares holds for every longer head. */
  lemma LengthStands(stream: Bytes, q: nat, p: nat)
    requires q < p <= |stream| && stream[q] == '\n' && ContentLength(stream[..q]) > 0
    ensures ContentLength(stream[..p]) == ContentLength(stream[..q])
  {
    hide Lines, FirstLength;
    var head, rest := stream[..q], stream[q + 1..p];
    assert stream[..p] == (head + "\n") + rest;
    LengthTerminated(head);
    LinesConcat(head + "\n", rest);
    FirstLengthConcat(Lines(head + "\n"), Lines(rest));
  }

  // The read loop.

  datatype Outcome =
    | Rejected(status: nat, buffer: Bytes)
    | Received(buffer: Bytes)

  /** The total length to read, once the head is complete; or the status that refuses it. */
  function ExpectedLength(buffer: Bytes, expected: Option<nat>): Result<Option<nat>, nat> {
    if expected.Some? then Success(expected)
    else
      match HeaderEnd(buffer)
      case None => Success(None)
      case Some((offset, len)) =>
        if offset > MAX_HTTP_HEADER_BYTES then Failure(400)
        else
          var bodyLen := ContentLength(buffer[..offset]);
          if bodyLen > MAX_HTTP_BODY_BYTES then Failure(413)
          else Success(Some(offset + len + bodyLen))
  }

  /** The loop from one state on, over the reads still to come; no more reads is end of file. */
  function ReadFrom(buffer: Bytes, expected: Option<nat>, chunks: seq<Bytes>): Outcome
    decreases |chunks|
  {
    if chunks == [] || chunks[0] == [] then Received(buffer)
    else
      var grown := buffer + chunks[0];
      match ExpectedLength(grown, expected)
      case Failure(status) => Rejected(status, grown)
      case Success(Some(len)) =>
        if |grown| >= len then Received(grown) else ReadFrom(grown, Some(len), chunks[1..])
      case Success(None) =>
        if |grown| > MAX_HTTP_HEADER_BYTES then Rejected(400, grown) else ReadFrom(grown, None, chunks[1..])
  }

  /** A read of nothing is end of file: what would come after it is never read. */
  lemma {:induction false} EndOfFileStops(
    buffer: Bytes, expected: Option<nat>, chunks: seq<Bytes>, never: seq<Bytes>)
    ensures ReadFrom(buffer, expected, chunks + [[]] + never) == ReadFrom(buffer, expected, chunks)
    decreases |chunks|
  {
    hide HeaderEnd, ContentLength;
    var all := chunks + [[]] + never;
    if chunks != [] && chunks[0] != [] {
      assert all[0] == chunks[0] && all[1..] == chunks[1..] + [[]] + never;
      match ExpectedLength(buffer + chunks[0], expected)
      case Success(next) => EndOfFileStops(buffer + chunks[0], next, chunks[1..], never);
      case Failure(_) =>
    }
  }

  method ReadRequest(chunks: seq<Bytes>) returns (outcome: Outcome)
    ensures outcome == ReadFrom([], None, chunks)
    ensures Reads(chunks) ==> |outcome.buffer| <= 65_536 + 4 + 1_048_576 + 4_095
  {
    hide HeaderEnd, ContentLength;
    if Reads(chunks) {
      BufferBounded([], None, chunks);
    }
    var buffer: Bytes := [];
    var expected: Option<nat> := None;
    var i := 0;
    while i < |chunks|
      invariant 0 <= i <= |chunks|
      invariant ReadFrom(buffer, expected, chunks[i..]) == ReadFrom([], None, chunks)
    {
      var chunk := chunks[i];
      i := i + 1;
      if chunk == [] {
        break;
      }
      buffer := buffer + chunk;
      if expected.None? {
        var end := HeaderEnd(buffer);
        if end.Some? {
          var (offset, len) := end.value;
          if offset > MAX_HTTP_HEADER_BYTES {
            return Rejected(400, buffer);
          }
          var bodyLen := ContentLength(buffer[..offset]);
          if bodyLen > MAX_HTTP_BODY_BYTES {
            return Rejected(413, buffer);
          }
          expected := Some(offset + len + bodyLen);
        }
      }
      if expected.Some? {
        if |buffer| >= expected.value {
          break;
        }
      } else if |buffer| > MAX_HTTP_HEADER_BYTES {
        return Rejected(400, buffer);
      }
    }
    return Received(buffer);
  }

  // The POST handler, on whatever buffer the loop hands over.

  datatype Post = Refused(status: nat) | Passed(body: Bytes)

  function HandlePost(request: Bytes): Post {
    match HeaderEnd(request)
    case None => Refused(400)
    case Some((offset, len)) =>
      var start := offset + len;
      var bodyLen := ContentLength(request[..offset]);
      if bodyLen > MAX_HTTP_BODY_BYTES then Refused(413)
      else if bodyLen == 0 || start + bodyLen > |request| then Refused(400)
      else Passed(request[start..start + bodyLen])
  }

  /** A POST request, from one state of the read loop to what the handler is given. */
  function PostFrom(buffer: Bytes, expected: Option<nat>, chunks: seq<Bytes>): Post {
    match ReadFrom(buffer, expected, chunks)
    case Rejected(status, _) => Refused(status)
    case Received(received) => HandlePost(received)
  }

  function PostOf(chunks: seq<Bytes>): Post {
    PostFrom([], None, chunks)
  }

  // Memory.

  /** What reads can bring: no empty one before end of file, and no more than the chunk holds. */
  ghost predicate Reads(chunks: seq<Bytes>) {
    forall i :: 0 <= i < |chunks| ==> 0 < |chunks[i]| <= READ_CHUNK
  }

  const MAX_BUFFER: nat := MAX_HTTP_HEADER_BYTES + 4 + MAX_HTTP_BODY_BYTES + READ_CHUNK - 1

  /** What the loop has buffered when it stops, which is the most it ever held, is bounded
      for any client. */
  lemma {:induction false} BufferBounded(buffer: Bytes, expected: Option<nat>, chunks: seq<Bytes>)
    requires Reads(chunks)
    requires match expected
             case None => |buffer| <= MAX_HTTP_HEADER_BYTES
             case Some(len) => |buffer| < len <= MAX_HTTP_HEADER_BYTES + 4 + MAX_HTTP_BODY_BYTES
    ensures |ReadFrom(buffer, expected, chunks).buffer| <= MAX_BUFFER
    decreases |chunks|
  {
    hide HeaderEnd, ContentLength;
    if chunks != [] {
      var grown := buffer + chunks[0];
      match ExpectedLength(grown, expected)
      case Success(next) =>
        if (next.Some? && |grown| < next.value) || (next.None? && |grown| <= MAX_HTTP_HEADER_BYTES) {
          BufferBounded(grown, next, chunks[1..]);
        }
      case Failure(_) =>
    }
  }
}
