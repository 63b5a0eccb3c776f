/** What a POST request gets however its bytes are cut into reads: for which requests the cut
    does not matter, and what it changes for the others. */
module HttpFragments {
  import opened Wrappers
  import opened Text
  import opened Http

  function Joined(chunks: seq<Bytes>): Bytes {
    if chunks == [] then [] else chunks[0] + Joined(chunks[1..])
  }

  /** The reads bring exactly the stream. */
  ghost predicate Fragments(chunks: seq<Bytes>, stream: Bytes) {
    Reads(chunks) && Joined(chunks) == stream
  }

  ghost predicate FirstAt(s: string, needle: string, i: nat) {
    OccursAt(s, needle, i) && forall j: nat :: j < i ==> !OccursAt(s, needle, j)
  }

  /** The needle does not occur within the first k characters. */
  ghost predicate NoneBy(s: string, needle: string, k: nat) {
    forall j: nat :: j + |needle| <= k ==> !OccursAt(s, needle, j)
  }

  /** What the stream should get if its head is separated from its body by len bytes at offset. */
  ghost function Answer(stream: Bytes, offset: nat, len: nat): Post
    requires offset + len <= |stream|
  {
    var start, bodyLen := offset + len, ContentLength(stream[..offset]);
    if bodyLen > 1_048_576 then Refused(413)
    else if bodyLen == 0 || start + bodyLen > |stream| then Refused(400)
    else Passed(stream[start..start + bodyLen])
  }

  /** The head ends in CR LF CR LF at p, with no empty line of bare LF before. */
  ghost predicate CrlfHead(stream: Bytes, p: nat) {
    FirstAt(stream, CRLF_CRLF, p) && forall j: nat :: j < p ==> !OccursAt(stream, LF_LF, j)
  }

  /** The first empty line is one of bare LF, at q. */
  ghost predicate LfHead(stream: Bytes, q: nat) {
    FirstAt(stream, LF_LF, q) && forall j: nat :: j < q ==> !OccursAt(stream, CRLF_CRLF, j)
  }

  // What a prefix shows.

  lemma FindFirst(haystack: string, needle: string, i: nat)
    ensures FirstAt(haystack, needle, i) ==> FindBytes(haystack, needle) == Some(i)
    ensures NoneBy(haystack, needle, |haystack|) ==> FindBytes(haystack, needle) == None
  {
    var r := FindBytes(haystack, needle);
    if r.Some? {
      assert OccursAt(haystack, needle, r.value);
    }
  }

  lemma OccursInPrefix(s: string, needle: string, k: nat, j: nat)
    requires k <= |s|
    ensures OccursAt(s[..k], needle, j) <==> j + |needle| <= k && OccursAt(s, needle, j)
  {
    if j + |needle| <= k {
      assert s[..k][j..j + |needle|] == s[j..j + |needle|];
    }
  }

  lemma PrefixFind(s: string, needle: string, k: nat, i: nat)
    requires k <= |s|
    ensures NoneBy(s, needle, k) ==> FindBytes(s[..k], needle) == None
    ensures FirstAt(s, needle, i) && i + |needle| <= k ==> FindBytes(s[..k], needle) == Some(i)
  {
    forall j: nat | true
      ensures OccursAt(s[..k], needle, j) <==> j + |needle| <= k && OccursAt(s, needle, j)
    {
      OccursInPrefix(s, needle, k, j);
    }
    FindFirst(s[..k], needle, i);
  }

  /** A prefix shows a head exactly when one separator is all there, CR LF CR LF first. */
  lemma PrefixHeaderEnd(stream: Bytes, k: nat, i: nat)
    requires k <= |stream|
    ensures FirstAt(stream, CRLF_CRLF, i) && i + 4 <= k ==> HeaderEnd(stream[..k]) == Some((i, 4))
    ensures NoneBy(stream, CRLF_CRLF, k) && FirstAt(stream, LF_LF, i) && i + 2 <= k
            ==> HeaderEnd(stream[..k]) == Some((i, 2))
    ensures NoneBy(stream, CRLF_CRLF, k) && NoneBy(stream, LF_LF, k) ==> HeaderEnd(stream[..k]) == None
  {
    hide OccursAt, FirstAt, NoneBy, FindBytes;
    PrefixFind(stream, CRLF_CRLF, k, i);
    PrefixFind(stream, LF_LF, k, i);
  }

  lemma CrlfHeadHidden(stream: Bytes, p: nat, k: nat)
    requires CrlfHead(stream, p) && k < p + 4
    ensures NoneBy(stream, CRLF_CRLF, k) && NoneBy(stream, LF_LF, k)
  {
    assert stream[p..p + 4] == CRLF_CRLF;
    assert stream[p] == '\r' && stream[p + 1] == '\n' && stream[p + 2] == '\r';
    assert stream[p..p + 2] != LF_LF && stream[p + 1..p + 3] != LF_LF;
  }

  lemma LfHeadHidden(stream: Bytes, q: nat, k: nat)
    requires LfHead(stream, q)
    ensures k < q + 2 ==> NoneBy(stream, CRLF_CRLF, k) && NoneBy(stream, LF_LF, k)
    ensures NoneBy(stream, CRLF_CRLF, q + 2)
  {
  }

  /** After a first empty line of bare LF at q, the first CR LF CR LF starts at q + 2 or later. */
  lemma CrlfAfterLf(stream: Bytes, q: nat, p: nat)
    requires LfHead(stream, q) && OccursAt(stream, CRLF_CRLF, p)
    ensures q + 2 <= p
  {
    assert stream[q..q + 2] == LF_LF && stream[p..p + 4] == CRLF_CRLF;
    assert stream[q] == '\n' && stream[q + 1] == '\n' && stream[p] == '\r';
    assert p != q && p != q + 1;
  }

  lemma FirstOccurrence(s: string, needle: string, j: nat) returns (i: nat)
    requires OccursAt(s, needle, j)
    ensures i <= j && FirstAt(s, needle, i)
  {
    i := FindBytes(s, needle).value;
  }

  /** The handler's second look at the buffer, when it finds the head where the loop did. */
  lemma HandleAt(stream: Bytes, k: nat, offset: nat, len: nat)
    requires k <= |stream| && HeaderEnd(stream[..k]) == Some((offset, len))
    requires k == |stream| || offset + len + ContentLength(stream[..offset]) <= k
    requires ContentLength(stream[..offset]) <= MAX_HTTP_BODY_BYTES
    ensures offset + len <= k && HandlePost(stream[..k]) == Answer(stream, offset, len)
  {
    hide HeaderEnd, ContentLength;
    var start, bodyLen := offset + len, ContentLength(stream[..offset]);
    assert stream[..k][..offset] == stream[..offset];
    if start + bodyLen <= k {
      assert stream[..k][start..start + bodyLen] == stream[start..start + bodyLen];
    }
  }

  // One read, from a prefix of the stream.

  /** The first of the reads takes one prefix to the next. */
  lemma NextPrefix(stream: Bytes, k: nat, c: nat, chunks: seq<Bytes>)
    requires k <= c <= |stream| && Fragments(chunks, stream[k..c]) && chunks != []
    ensures var next := k + |chunks[0]|;
            && k < next <= c && next <= k + READ_CHUNK
            && stream[..k] + chunks[0] == stream[..next]
            && Fragments(chunks[1..], stream[next..c])
  {
    var next := k + |chunks[0]|;
    assert stream[k..c][..|chunks[0]|] == chunks[0];
    assert stream[next..c] == Joined(chunks[1..]);
  }

  lemma NoMoreReads(stream: Bytes, k: nat, c: nat, chunks: seq<Bytes>)
    requires k <= c <= |stream| && Fragments(chunks, stream[k..c])
    ensures chunks == [] <==> k == c
  {
    if chunks != [] {
      NextPrefix(stream, k, c, chunks);
    }
  }

  lemma StepHidden(stream: Bytes, k: nat, c: nat, chunks: seq<Bytes>, rest: seq<Bytes>)
    requires k <= c <= |stream| && Fragments(chunks, stream[k..c]) && chunks != []
    requires var next := k + |chunks[0]|; NoneBy(stream, CRLF_CRLF, next) && NoneBy(stream, LF_LF, next)
    ensures var next := k + |chunks[0]|;
            PostFrom(stream[..k], None, chunks + rest)
            == if next > MAX_HTTP_HEADER_BYTES then Refused(400)
               else PostFrom(stream[..next], None, chunks[1..] + rest)
  {
    hide HeaderEnd, HandlePost, NoneBy;
    NextPrefix(stream, k, c, chunks);
    PrefixHeaderEnd(stream, k + |chunks[0]|, 0);
    assert (chunks + rest)[0] == chunks[0] && (chunks + rest)[1..] == chunks[1..] + rest;
  }

  /** With the length known, reading ends within one read of it, or at end of file. */
  lemma {:induction false} Finish(stream: Bytes, k: nat, total: nat, chunks: seq<Bytes>) returns (m: nat)
    requires k < total && k <= |stream| && Fragments(chunks, stream[k..])
    ensures k <= m <= |stream| && m < total + READ_CHUNK && (m >= total || m == |stream|)
    ensures PostFrom(stream[..k], Some(total), chunks) == HandlePost(stream[..m])
    decreases |chunks|
  {
    hide HandlePost, HeaderEnd;
    assert stream[k..|stream|] == stream[k..];
    NoMoreReads(stream, k, |stream|, chunks);
    if chunks == [] {
      m := k;
    } else {
      NextPrefix(stream, k, |stream|, chunks);
      m := k + |chunks[0]|;
      if m < total {
        assert stream[m..|stream|] == stream[m..];
        m := Finish(stream, m, total, chunks[1..]);
      }
    }
  }

  /** The read that brings the first CR LF CR LF settles the answer. */
  lemma ArriveCrlf(stream: Bytes, p: nat, k: nat, chunks: seq<Bytes>)
    requires FirstAt(stream, CRLF_CRLF, p) && k <= |stream|
    requires Fragments(chunks, stream[k..]) && chunks != [] && p + 4 <= k + |chunks[0]|
    ensures PostFrom(stream[..k], None, chunks)
            == if p > MAX_HTTP_HEADER_BYTES then Refused(400) else Answer(stream, p, 4)
  {
    hide HandlePost, HeaderEnd, ContentLength, FirstAt;
    assert stream[k..|stream|] == stream[k..];
    NextPrefix(stream, k, |stream|, chunks);
    var next := k + |chunks[0]|;
    var bodyLen := ContentLength(stream[..p]);
    PrefixHeaderEnd(stream, next, p);
    assert stream[..next][..p] == stream[..p];
    if p <= MAX_HTTP_HEADER_BYTES && bodyLen <= MAX_HTTP_BODY_BYTES {
      var m := next;
      if next < p + 4 + bodyLen {
        assert stream[next..|stream|] == stream[next..];
        m := Finish(stream, next, p + 4 + bodyLen, chunks[1..]);
      }
      PrefixHeaderEnd(stream, m, p);
      HandleAt(stream, m, p, 4);
    }
  }

  /** The read that brings the first LF LF, and no CR LF CR LF, fixes the length by it. */
  lemma ArriveLf(stream: Bytes, q: nat, k: nat, chunks: seq<Bytes>)
    requires FirstAt(stream, LF_LF, q) && k <= |stream|
    requires Fragments(chunks, stream[k..]) && chunks != [] && q + 2 <= k + |chunks[0]|
    requires NoneBy(stream, CRLF_CRLF, k + |chunks[0]|)
    ensures var next, bodyLen := k + |chunks[0]|, ContentLength(stream[..q]);
            PostFrom(stream[..k], None, chunks)
            == if q > MAX_HTTP_HEADER_BYTES then Refused(400)
               else if bodyLen > MAX_HTTP_BODY_BYTES then Refused(413)
               else if next >= q + 2 + bodyLen then HandlePost(stream[..next])
               else PostFrom(stream[..next], Some(q + 2 + bodyLen), chunks[1..])
  {
    hide HandlePost, HeaderEnd, ContentLength, FirstAt, NoneBy;
    assert stream[k..|stream|] == stream[k..];
    NextPrefix(stream, k, |stream|, chunks);
    var next := k + |chunks[0]|;
    PrefixHeaderEnd(stream, next, q);
    assert stream[..next][..q] == stream[..q];
  }

  // Cuts to order.

  function Pieces(s: Bytes): (r: seq<Bytes>)
    ensures Fragments(r, s)
  {
    if s == [] then []
    else
      var n := if |s| < READ_CHUNK then |s| else READ_CHUNK;
      var rest := Pieces(s[n..]);
      assert s[..n] + s[n..] == s;
      var r := [s[..n]] + rest;
      assert r[1..] == rest;
      r
  }

  lemma {:induction false} JoinedConcat(a: seq<Bytes>, b: seq<Bytes>)
    ensures Joined(a + b) == Joined(a) + Joined(b)
  {
    if a == [] {
      assert a + b == b;
    } else {
      assert (a + b)[0] == a[0] && (a + b)[1..] == a[1..] + b;
      JoinedConcat(a[1..], b);
    }
  }

  lemma ReadsConcat(a: seq<Bytes>, b: seq<Bytes>)
    requires Reads(a) && Reads(b)
    ensures Reads(a + b)
  {
  }

  lemma FragmentsConcat(stream: Bytes, k: nat, c: nat, a: seq<Bytes>, b: seq<Bytes>)
    requires k <= c <= |stream| && Fragments(a, stream[k..c]) && Fragments(b, stream[c..])
    ensures Fragments(a + b, stream[k..])
  {
    ReadsConcat(a, b);
    JoinedConcat(a, b);
    hide Reads, Joined;
    assert stream[k..c] + stream[c..] == stream[k..];
  }

  /** One read from a to b before the others. */
  lemma OneRead(stream: Bytes, a: nat, b: nat, rest: seq<Bytes>) returns (chunks: seq<Bytes>)
    requires a < b <= |stream| && b - a <= READ_CHUNK && Fragments(rest, stream[b..])
    ensures chunks == [stream[a..b]] + rest && chunks[1..] == rest && Fragments(chunks, stream[a..])
  {
    chunks := [stream[a..b]] + rest;
    assert chunks[1..] == rest;
    assert stream[a..b] + stream[b..] == stream[a..];
  }

  /** Reads up to c that show no head leave the loop waiting, or are too many. */
  lemma {:induction false} SkipHidden(stream: Bytes, k: nat, c: nat, chunks: seq<Bytes>, rest: seq<Bytes>)
    requires k <= c <= |stream| && k <= MAX_HTTP_HEADER_BYTES && Fragments(chunks, stream[k..c])
    requires NoneBy(stream, CRLF_CRLF, c) && NoneBy(stream, LF_LF, c)
    ensures PostFrom(stream[..k], None, chunks + rest)
            == if c > MAX_HTTP_HEADER_BYTES then Refused(400) else PostFrom(stream[..c], None, rest)
    decreases |chunks|
  {
    hide PostFrom, OccursAt;
    NoMoreReads(stream, k, c, chunks);
    if chunks == [] {
      assert chunks + rest == rest;
    } else {
      NextPrefix(stream, k, c, chunks);
      StepHidden(stream, k, c, chunks, rest);
      if k + |chunks[0]| <= MAX_HTTP_HEADER_BYTES {
        SkipHidden(stream, k + |chunks[0]|, c, chunks[1..], rest);
      }
    }
  }

  /** Reads short of the known length only fill the buffer. */
  lemma {:induction false} SkipBody(
    stream: Bytes, k: nat, c: nat, total: nat, chunks: seq<Bytes>, rest: seq<Bytes>)
    requires k <= c <= |stream| && c < total && Fragments(chunks, stream[k..c])
    ensures PostFrom(stream[..k], Some(total), chunks + rest) == PostFrom(stream[..c], Some(total), rest)
    decreases |chunks|
  {
    hide HandlePost, HeaderEnd;
    NoMoreReads(stream, k, c, chunks);
    if chunks == [] {
      assert chunks + rest == rest;
    } else {
      NextPrefix(stream, k, c, chunks);
      assert (chunks + rest)[0] == chunks[0] && (chunks + rest)[1..] == chunks[1..] + rest;
      SkipBody(stream, k + |chunks[0]|, c, total, chunks[1..], rest);
    }
  }

  lemma StartsEmpty(stream: Bytes)
    ensures stream[..0] == [] && stream[0..] == stream && forall c :: 0 <= c <= |stream| ==> stream[0..c] == stream[..c]
  {
  }

  /** Any reads of what follows c can come after reads that show no head up to c. */
  lemma HiddenThen(stream: Bytes, c: nat, rest: seq<Bytes>) returns (chunks: seq<Bytes>)
    requires c <= |stream| && Fragments(rest, stream[c..])
    requires NoneBy(stream, CRLF_CRLF, c) && NoneBy(stream, LF_LF, c)
    ensures Fragments(chunks, stream)
    ensures PostOf(chunks) == if c > MAX_HTTP_HEADER_BYTES then Refused(400) else PostFrom(stream[..c], None, rest)
  {
    hide PostFrom, NoneBy;
    StartsEmpty(stream);
    var first := Pieces(stream[0..c]);
    chunks := first + rest;
    FragmentsConcat(stream, 0, c, first, rest);
    SkipHidden(stream, 0, c, first, rest);
  }

  lemma StillHidden(stream: Bytes, k: nat, chunks: seq<Bytes>)
    requires k <= |stream| && Fragments(chunks, stream[k..]) && chunks != []
    requires var next := k + |chunks[0]|; NoneBy(stream, CRLF_CRLF, next) && NoneBy(stream, LF_LF, next)
    ensures var next := k + |chunks[0]|;
            && next <= |stream| && Fragments(chunks[1..], stream[next..])
            && PostFrom(stream[..k], None, chunks)
               == if next > MAX_HTTP_HEADER_BYTES then Refused(400)
                  else PostFrom(stream[..next], None, chunks[1..])
  {
    hide Fragments, PostFrom, NoneBy;
    assert stream[k..|stream|] == stream[k..];
    NextPrefix(stream, k, |stream|, chunks);
    StepHidden(stream, k, |stream|, chunks, []);
    assert chunks + [] == chunks && chunks[1..] + [] == chunks[1..];
    assert stream[k + |chunks[0]|..|stream|] == stream[k + |chunks[0]|..];
  }

  // Heads that end in CR LF CR LF.

  lemma {:induction false} ReadCrlfHead(stream: Bytes, p: nat, k: nat, chunks: seq<Bytes>)
    requires CrlfHead(stream, p) && k < p + 4 && k <= |stream| && Fragments(chunks, stream[k..])
    ensures p <= MAX_HTTP_HEADER_BYTES - 3 ==> PostFrom(stream[..k], None, chunks) == Answer(stream, p, 4)
    ensures p > MAX_HTTP_HEADER_BYTES ==> PostFrom(stream[..k], None, chunks) == Refused(400)
    decreases |chunks|
  {
    hide PostFrom, Answer, NoneBy, FirstAt, CrlfHead;
    assert p + 4 <= |stream| && FirstAt(stream, CRLF_CRLF, p) by { CrlfHeadParts(stream, p); }
    assert stream[k..|stream|] == stream[k..];
    NoMoreReads(stream, k, |stream|, chunks);
    NextPrefix(stream, k, |stream|, chunks);
    var next := k + |chunks[0]|;
    if next < p + 4 {
      CrlfHeadHidden(stream, p, next);
      StillHidden(stream, k, chunks);
      ReadCrlfHead(stream, p, next, chunks[1..]);
    } else {
      ArriveCrlf(stream, p, k, chunks);
    }
  }

  lemma CrlfHeadParts(stream: Bytes, p: nat)
    requires CrlfHead(stream, p)
    ensures p + 4 <= |stream| && FirstAt(stream, CRLF_CRLF, p)
  {
  }

  /** However a stream with such a head is cut into reads, the handler is given the same body,
      or the client the same refusal: the stream's answer up to offset 65533, and 400 from
      65537 on. */
  lemma AnyFragmentation(stream: Bytes, p: nat, chunks: seq<Bytes>)
    requires CrlfHead(stream, p) && Fragments(chunks, stream)
    ensures p <= MAX_HTTP_HEADER_BYTES - 3 ==> PostOf(chunks) == Answer(stream, p, 4)
    ensures p > MAX_HTTP_HEADER_BYTES ==> PostOf(chunks) == Refused(400)
  {
    hide PostFrom, CrlfHead;
    StartsEmpty(stream);
    ReadCrlfHead(stream, p, 0, chunks);
  }

  /** From offset 65534 on, some fragmentation is refused: one that stops a byte short. */
  lemma LongHeadRefused(stream: Bytes, p: nat) returns (chunks: seq<Bytes>)
    requires CrlfHead(stream, p) && p > MAX_HTTP_HEADER_BYTES - 3
    ensures Fragments(chunks, stream) && PostOf(chunks) == Refused(400)
  {
    hide PostOf, CrlfHead, NoneBy;
    CrlfHeadParts(stream, p);
    CrlfHeadHidden(stream, p, p + 3);
    chunks := HiddenThen(stream, p + 3, Pieces(stream[p + 3..]));
  }

  /** Up to offset 65536, some fragmentation gets the stream's answer: one with the whole
      separator in one read. */
  lemma LongHeadAnswered(stream: Bytes, p: nat) returns (chunks: seq<Bytes>)
    requires CrlfHead(stream, p) && p <= MAX_HTTP_HEADER_BYTES
    ensures Fragments(chunks, stream) && PostOf(chunks) == Answer(stream, p, 4)
  {
    hide PostOf, PostFrom, CrlfHead, NoneBy;
    CrlfHeadParts(stream, p);
    CrlfHeadHidden(stream, p, p);
    var rest := OneRead(stream, p, p + 4, Pieces(stream[p + 4..]));
    ArriveCrlf(stream, p, p, rest);
    chunks := HiddenThen(stream, p, rest);
  }

  /** A complete request passes its body under every fragmentation exactly when its head ends
      at offset 65533 at the latest, and under some fragmentation exactly when at 65536. */
  lemma CrlfRequestPasses(stream: Bytes, p: nat)
    requires CrlfHead(stream, p) && Answer(stream, p, 4).Passed?
    ensures (forall chunks: seq<Bytes> :: Fragments(chunks, stream) ==> PostOf(chunks) == Answer(stream, p, 4))
            <==> p <= 65_533
    ensures (exists chunks: seq<Bytes> :: Fragments(chunks, stream) && PostOf(chunks) == Answer(stream, p, 4))
            <==> p <= 65_536
  {
    CrlfHeadParts(stream, p);
    hide PostOf, CrlfHead, Answer, Fragments;
    forall chunks: seq<Bytes> | Fragments(chunks, stream)
      ensures p <= MAX_HTTP_HEADER_BYTES - 3 ==> PostOf(chunks) == Answer(stream, p, 4)
      ensures p > MAX_HTTP_HEADER_BYTES ==> PostOf(chunks) == Refused(400)
    {
      AnyFragmentation(stream, p, chunks);
    }
    if p <= MAX_HTTP_HEADER_BYTES {
      var answered := LongHeadAnswered(stream, p);
    }
    if p > MAX_HTTP_HEADER_BYTES - 3 {
      var refused := LongHeadRefused(stream, p);
    }
  }

  // Heads that end in LF LF.

  /** One of the reads brings the LF LF, or there are too many before. */
  lemma {:induction false} ReadToLf(
    stream: Bytes, q: nat, k: nat, chunks: seq<Bytes>)
    returns (j: nat, rest: seq<Bytes>)
    requires LfHead(stream, q) && k < q + 2 && k <= |stream| && Fragments(chunks, stream[k..])
    ensures k <= j < q + 2 <= |stream| && Fragments(rest, stream[j..]) && rest != [] && j + |rest[0]| >= q + 2
    ensures PostFrom(stream[..k], None, chunks) == PostFrom(stream[..j], None, rest)
            || (q >= MAX_HTTP_HEADER_BYTES && PostFrom(stream[..k], None, chunks) == Refused(400))
    decreases |chunks|
  {
    assert q + 2 <= |stream|;
    hide Fragments, PostFrom, NoneBy, FirstAt, LfHead;
    assert stream[k..|stream|] == stream[k..];
    NoMoreReads(stream, k, |stream|, chunks);
    NextPrefix(stream, k, |stream|, chunks);
    var next := k + |chunks[0]|;
    if next < q + 2 {
      LfHeadHidden(stream, q, next);
      StillHidden(stream, k, chunks);
      j, rest := ReadToLf(stream, q, next, chunks[1..]);
    } else {
      j, rest := k, chunks;
    }
  }

  // Those that declare a length.

  /** The first empty line is LF LF at q, the lines before it declare a length in range, and
      that many bytes follow. */
  ghost predicate LfRequest(stream: Bytes, q: nat) {
    && LfHead(stream, q)
    && 0 < ContentLength(stream[..q]) <= MAX_HTTP_BODY_BYTES
    && q + 2 + ContentLength(stream[..q]) <= |stream|
  }

  ghost function LfEnd(stream: Bytes, q: nat): nat
    requires q <= |stream|
  {
    q + 2 + ContentLength(stream[..q])
  }

  lemma LfRequestParts(stream: Bytes, q: nat)
    requires LfRequest(stream, q)
    ensures q + 2 < LfEnd(stream, q) <= |stream| && FirstAt(stream, LF_LF, q) && LfHead(stream, q)
    ensures Answer(stream, q, 2) == Passed(stream[q + 2..LfEnd(stream, q)])
    ensures LfEnd(stream, q) == q + 2 + ContentLength(stream[..q]) && ContentLength(stream[..q]) <= MAX_HTTP_BODY_BYTES
  {
  }

  lemma NoneByLess(s: string, needle: string, k: nat, m: nat)
    requires NoneBy(s, needle, k) && m <= k
    ensures NoneBy(s, needle, m)
  {
  }

  /** The read that brings the LF LF settles it, if no CR LF CR LF is in reach. */
  lemma SettleLf(stream: Bytes, q: nat, k: nat, chunks: seq<Bytes>)
    requires LfRequest(stream, q) && q <= MAX_HTTP_HEADER_BYTES
    requires NoneBy(stream, CRLF_CRLF, LfEnd(stream, q) + READ_CHUNK - 1)
    requires k < q + 2 && k <= |stream| && Fragments(chunks, stream[k..])
    requires chunks != [] && k + |chunks[0]| >= q + 2
    ensures PostFrom(stream[..k], None, chunks) == Answer(stream, q, 2)
  {
    hide Fragments, PostFrom, HandlePost, Answer, ContentLength, HeaderEnd, NoneBy, FirstAt, LfHead, LfRequest, LfEnd;
    LfRequestParts(stream, q);
    var total, next := LfEnd(stream, q), k + |chunks[0]|;
    assert stream[k..|stream|] == stream[k..];
    NextPrefix(stream, k, |stream|, chunks);
    NoneByLess(stream, CRLF_CRLF, total + READ_CHUNK - 1, next);
    ArriveLf(stream, q, k, chunks);
    var m := next;
    if next < total {
      assert stream[next..|stream|] == stream[next..];
      m := Finish(stream, next, total, chunks[1..]);
    }
    NoneByLess(stream, CRLF_CRLF, total + READ_CHUNK - 1, m);
    PrefixHeaderEnd(stream, m, q);
    HandleAt(stream, m, q, 2);
  }

  /** With the length known, some reads stop anywhere within one read of it. */
  lemma StopBody(stream: Bytes, k: nat, total: nat, m: nat) returns (chunks: seq<Bytes>)
    requires k < total <= m <= |stream| && m < total + READ_CHUNK
    ensures Fragments(chunks, stream[k..])
    ensures PostFrom(stream[..k], Some(total), chunks) == HandlePost(stream[..m])
  {
    hide Fragments, HandlePost, HeaderEnd;
    var tail := OneRead(stream, total - 1, m, Pieces(stream[m..]));
    var body := Pieces(stream[k..total - 1]);
    chunks := body + tail;
    FragmentsConcat(stream, k, total - 1, body, tail);
    assert stream[..total - 1] + tail[0] == stream[..m];
    SkipBody(stream, k, total - 1, total, body, tail);
  }

  /** Some fragmentation makes the loop stop at any point within one read of the end that the
      LF head declares: the length is fixed by that head, and the handler looks again. */
  lemma LfStop(stream: Bytes, q: nat, m: nat) returns (chunks: seq<Bytes>)
    requires LfRequest(stream, q) && q <= MAX_HTTP_HEADER_BYTES
    requires LfEnd(stream, q) <= m < LfEnd(stream, q) + READ_CHUNK && m <= |stream|
    ensures Fragments(chunks, stream) && PostOf(chunks) == HandlePost(stream[..m])
  {
    hide Fragments, PostOf, PostFrom, HandlePost, Answer, ContentLength, HeaderEnd;
    hide NoneBy, FirstAt, LfHead, LfRequest, LfEnd;
    LfRequestParts(stream, q);
    LfHeadHidden(stream, q, q);
    LfHeadHidden(stream, q, q + 2);
    var body := StopBody(stream, q + 2, LfEnd(stream, q), m);
    var arrive := OneRead(stream, q, q + 2, body);
    assert |arrive[0]| == 2;
    ArriveLf(stream, q, q, arrive);
    chunks := HiddenThen(stream, q, arrive);
  }

  /** Stopped where a CR LF CR LF is already in the buffer, the handler does not find the body
      of the LF head. */
  lemma StopPastCrlf(stream: Bytes, q: nat, p: nat) returns (chunks: seq<Bytes>)
    requires LfRequest(stream, q) && q <= MAX_HTTP_HEADER_BYTES
    requires FirstAt(stream, CRLF_CRLF, p) && p + 4 < LfEnd(stream, q) + READ_CHUNK
    ensures Fragments(chunks, stream) && PostOf(chunks) != Answer(stream, q, 2)
    ensures LfEnd(stream, q) <= p + 4 ==> PostOf(chunks).Refused?
  {
    LfRequestParts(stream, q);
    assert q + 2 <= p && p + 4 <= |stream| by { CrlfAfterLf(stream, q, p); }
    hide FirstAt, LfRequest, LfHead, ContentLength, PostOf, HeaderEnd;
    var total := LfEnd(stream, q);
    var m := if total <= p + 4 then p + 4 else total;
    chunks := LfStop(stream, q, m);
    PrefixHeaderEnd(stream, m, p);
    var post := HandlePost(stream[..m]);
    assert post.Passed? ==> |post.body| <= m - p - 4;
    assert |stream[q + 2..total]| > m - p - 4 || m == p + 4;
  }

  /** Without a CR LF CR LF up to the body's end, some fragmentation passes the body. */
  lemma LfAnswered(stream: Bytes, q: nat) returns (chunks: seq<Bytes>)
    requires LfRequest(stream, q) && q <= MAX_HTTP_HEADER_BYTES && NoneBy(stream, CRLF_CRLF, LfEnd(stream, q))
    ensures Fragments(chunks, stream) && PostOf(chunks) == Answer(stream, q, 2)
  {
    hide Fragments, PostOf, HandlePost, Answer, HeaderEnd, ContentLength, LfRequest, LfHead, FirstAt, NoneBy;
    LfRequestParts(stream, q);
    var total := LfEnd(stream, q);
    chunks := LfStop(stream, q, total);
    PrefixHeaderEnd(stream, total, q);
    HandleAt(stream, total, q, 2);
  }

  /** A complete request with an LF head passes its body under every fragmentation exactly when
      the head ends at offset 65535 at the latest and no CR LF CR LF ends within one read of
      the body's end, in the body or after it. If none ends in the body, some fragmentation
      passes it exactly when the head ends at 65536 at the latest. */
  lemma LfRequestPasses(stream: Bytes, q: nat)
    requires LfRequest(stream, q)
    ensures (forall chunks: seq<Bytes> :: Fragments(chunks, stream) ==> PostOf(chunks) == Answer(stream, q, 2))
            <==> q < 65_536 && NoneBy(stream, CRLF_CRLF, LfEnd(stream, q) + 4_095)
    ensures NoneBy(stream, CRLF_CRLF, LfEnd(stream, q)) ==>
              ((exists chunks: seq<Bytes> :: Fragments(chunks, stream) && PostOf(chunks) == Answer(stream, q, 2))
               <==> q <= 65_536)
  {
    if q < MAX_HTTP_HEADER_BYTES {
      LfPassesAll(stream, q);
    } else {
      hide NoneBy, LfRequest, LfHead, PostOf, Fragments, Answer;
      LfRequestParts(stream, q);
      var chunks := LateLfRefused(stream, q);
    }
    hide NoneBy, LfRequest, LfHead, PostOf, Fragments, Answer, LfEnd;
    LfRequestParts(stream, q);
    if q > MAX_HTTP_HEADER_BYTES {
      forall chunks: seq<Bytes> | Fragments(chunks, stream)
        ensures PostOf(chunks).Refused?
      {
        LfRefused(stream, q, chunks);
      }
    } else if NoneBy(stream, CRLF_CRLF, LfEnd(stream, q)) {
      var chunks := LfAnswered(stream, q);
    }
  }

  lemma LfPassesAll(stream: Bytes, q: nat)
    requires LfRequest(stream, q) && q < MAX_HTTP_HEADER_BYTES
    ensures (forall chunks: seq<Bytes> :: Fragments(chunks, stream) ==> PostOf(chunks) == Answer(stream, q, 2))
            <==> NoneBy(stream, CRLF_CRLF, LfEnd(stream, q) + READ_CHUNK - 1)
  {
    LfRequestParts(stream, q);
    var reach := LfEnd(stream, q) + READ_CHUNK - 1;
    if NoneBy(stream, CRLF_CRLF, reach) {
      hide NoneBy, LfRequest, LfHead, Answer, PostFrom, LfEnd;
      StartsEmpty(stream);
      forall chunks: seq<Bytes> | Fragments(chunks, stream)
        ensures PostOf(chunks) == Answer(stream, q, 2)
      {
        var k, rest := ReadToLf(stream, q, 0, chunks);
        SettleLf(stream, q, k, rest);
      }
    } else {
      var j: nat :| j + 4 <= reach && OccursAt(stream, CRLF_CRLF, j);
      var p := FirstOccurrence(stream, CRLF_CRLF, j);
      hide NoneBy, LfRequest, LfHead, Answer, PostOf, Fragments;
      var chunks := StopPastCrlf(stream, q, p);
    }
  }

  /** Such a head that ends too late, or declares more than is allowed or follows. */
  ghost predicate LfHopeless(stream: Bytes, q: nat) {
    && LfHead(stream, q)
    && (|| q > MAX_HTTP_HEADER_BYTES
        || ContentLength(stream[..q]) > MAX_HTTP_BODY_BYTES
        || (ContentLength(stream[..q]) > 0 && q + 2 + ContentLength(stream[..q]) > |stream|))
  }

  lemma LfHopelessParts(stream: Bytes, q: nat)
    requires LfHopeless(stream, q)
    ensures q + 2 <= |stream| && FirstAt(stream, LF_LF, q) && LfHead(stream, q)
    ensures || q > MAX_HTTP_HEADER_BYTES || ContentLength(stream[..q]) > MAX_HTTP_BODY_BYTES
            || (ContentLength(stream[..q]) > 0 && q + 2 + ContentLength(stream[..q]) > |stream|)
  {
  }

  /** A later head is no better: it declares the same length. */
  lemma LaterHopeless(stream: Bytes, q: nat, p: nat)
    requires LfHopeless(stream, q) && FirstAt(stream, CRLF_CRLF, p)
    ensures q + 2 <= p && p + 4 <= |stream|
    ensures p > MAX_HTTP_HEADER_BYTES || Answer(stream, p, 4).Refused?
    ensures q <= MAX_HTTP_HEADER_BYTES ==> Answer(stream, p, 4).Refused?
  {
    CrlfAfterLf(stream, q, p);
    assert stream[q..q + 2] == LF_LF && stream[q] == '\n';
    hide ContentLength, FirstAt, LfHead;
    if q <= MAX_HTTP_HEADER_BYTES {
      LengthStands(stream, q, p);
    }
  }

  /** At end of file such a request is incomplete. */
  lemma IncompleteRefused(stream: Bytes, q: nat)
    requires LfHopeless(stream, q) && q <= MAX_HTTP_HEADER_BYTES && ContentLength(stream[..q]) <= MAX_HTTP_BODY_BYTES
    ensures HandlePost(stream).Refused?
  {
    hide ContentLength, HeaderEnd, FirstAt, LfHead, LfHopeless;
    LfHopelessParts(stream, q);
    var k := |stream|;
    assert stream[..k] == stream;
    if NoneBy(stream, CRLF_CRLF, k) {
      hide NoneBy;
      PrefixHeaderEnd(stream, k, q);
    } else {
      var j: nat :| j + 4 <= k && OccursAt(stream, CRLF_CRLF, j);
      var p := FirstOccurrence(stream, CRLF_CRLF, j);
      LaterHopeless(stream, q, p);
      PrefixHeaderEnd(stream, k, p);
    }
  }

  /** The read that brings the LF LF cannot save it. */
  lemma SettleHopeless(stream: Bytes, q: nat, k: nat, chunks: seq<Bytes>)
    requires LfHopeless(stream, q) && k < q + 2 && k <= |stream| && Fragments(chunks, stream[k..])
    requires chunks != [] && k + |chunks[0]| >= q + 2
    ensures PostFrom(stream[..k], None, chunks).Refused?
  {
    hide Fragments, PostFrom, HandlePost, Answer, ContentLength, HeaderEnd, FirstAt, LfHead, LfHopeless;
    LfHopelessParts(stream, q);
    assert stream[k..|stream|] == stream[k..];
    NextPrefix(stream, k, |stream|, chunks);
    var next := k + |chunks[0]|;
    if NoneBy(stream, CRLF_CRLF, next) {
      hide NoneBy;
      ArriveLf(stream, q, k, chunks);
      if q <= MAX_HTTP_HEADER_BYTES && ContentLength(stream[..q]) <= MAX_HTTP_BODY_BYTES {
        assert stream[next..|stream|] == stream[next..];
        var m := Finish(stream, next, q + 2 + ContentLength(stream[..q]), chunks[1..]);
        assert stream[..m] == stream;
        IncompleteRefused(stream, q);
      }
    } else {
      var j: nat :| j + 4 <= next && OccursAt(stream, CRLF_CRLF, j);
      var p := FirstOccurrence(stream, CRLF_CRLF, j);
      LaterHopeless(stream, q, p);
      ArriveCrlf(stream, p, k, chunks);
    }
  }

  lemma LfRefused(stream: Bytes, q: nat, chunks: seq<Bytes>)
    requires LfHopeless(stream, q) && Fragments(chunks, stream)
    ensures PostOf(chunks).Refused?
  {
    hide PostFrom, NoneBy, LfHopeless, LfHead;
    LfHopelessParts(stream, q);
    StartsEmpty(stream);
    var k, rest := ReadToLf(stream, q, 0, chunks);
    SettleHopeless(stream, q, k, rest);
  }

  /** From offset 65536 on, some fragmentation of an LF head is refused. */
  lemma LateLfRefused(stream: Bytes, q: nat) returns (chunks: seq<Bytes>)
    requires LfHead(stream, q) && q >= MAX_HTTP_HEADER_BYTES
    ensures Fragments(chunks, stream) && PostOf(chunks) == Refused(400)
  {
    LfHeadHidden(stream, q, q + 1);
    assert q + 2 <= |stream|;
    hide PostOf, LfHead, NoneBy;
    chunks := HiddenThen(stream, q + 1, Pieces(stream[q + 1..]));
  }

  /** If a CR LF CR LF ends after the body, but within one read of its end, the same request
      passes that body under one fragmentation and is refused under another. */
  lemma LfRequestDepends(stream: Bytes, q: nat, p: nat) returns (passed: seq<Bytes>, refused: seq<Bytes>)
    requires LfRequest(stream, q) && q <= MAX_HTTP_HEADER_BYTES && FirstAt(stream, CRLF_CRLF, p)
    requires LfEnd(stream, q) < p + 4 < LfEnd(stream, q) + READ_CHUNK
    ensures Fragments(passed, stream) && PostOf(passed) == Answer(stream, q, 2) && PostOf(passed).Passed?
    ensures Fragments(refused, stream) && PostOf(refused).Refused?
  {
    assert NoneBy(stream, CRLF_CRLF, LfEnd(stream, q));
    hide PostOf, ContentLength, LfRequest, LfHead, FirstAt, NoneBy;
    LfRequestParts(stream, q);
    refused := StopPastCrlf(stream, q, p);
    passed := LfAnswered(stream, q);
  }

  // A CR LF CR LF inside the body.

  lemma LineFeedAt(stream: Bytes, q: nat)
    requires FirstAt(stream, LF_LF, q)
    ensures q + 2 <= |stream| && stream[q] == '\n'
  {
    assert stream[q..q + 2] == LF_LF;
  }

  /** The CR LF CR LF that the handler prefers declares the same length. */
  lemma CrlfSameLength(stream: Bytes, q: nat, p: nat)
    requires LfRequest(stream, q) && FirstAt(stream, CRLF_CRLF, p)
    ensures q + 2 <= p && p + 4 <= |stream|
    ensures ContentLength(stream[..p]) == ContentLength(stream[..q])
  {
    CrlfAfterLf(stream, q, p);
    hide ContentLength, FirstAt, LfHead;
    LineFeedAt(stream, q);
    LengthStands(stream, q, p);
  }

  lemma CrlfInBody(stream: Bytes, q: nat, p: nat)
    requires LfRequest(stream, q) && FirstAt(stream, CRLF_CRLF, p)
    ensures q + 2 <= p && p + 4 <= |stream|
    ensures Answer(stream, p, 4)
            == var end := p + 4 + ContentLength(stream[..q]);
               if end <= |stream| then Passed(stream[p + 4..end]) else Refused(400)
  {
    hide ContentLength, FirstAt, LfHead, LfRequest, LfEnd;
    LfRequestParts(stream, q);
    CrlfSameLength(stream, q, p);
  }

  lemma HandlePastCrlf(stream: Bytes, q: nat, p: nat, m: nat)
    requires LfRequest(stream, q) && FirstAt(stream, CRLF_CRLF, p) && p + 4 <= m <= |stream|
    ensures HandlePost(stream[..m])
            == if p + 4 + ContentLength(stream[..q]) <= m then Answer(stream, p, 4) else Refused(400)
  {
    hide ContentLength, HeaderEnd, FirstAt, LfHead;
    CrlfSameLength(stream, q, p);
    PrefixHeaderEnd(stream, m, p);
    assert stream[..m][..p] == stream[..p];
    if p + 4 + ContentLength(stream[..q]) <= m {
      HandleAt(stream, m, p, 4);
    }
  }

  /** The later head is answered, and not refused, if one read can bring it and its body. */
  ghost predicate InReach(stream: Bytes, q: nat, p: nat)
    requires q <= |stream|
  {
    && q <= 65_536 && p - q <= 4_093
    && p + 4 + ContentLength(stream[..q]) <= |stream|
  }

  lemma SettleEarly(stream: Bytes, q: nat, p: nat, k: nat, chunks: seq<Bytes>)
    requires LfRequest(stream, q) && FirstAt(stream, CRLF_CRLF, p) && p + 4 <= LfEnd(stream, q)
    requires k < q + 2 && k <= |stream| && Fragments(chunks, stream[k..])
    requires chunks != [] && q + 2 <= k + |chunks[0]| < p + 4 && NoneBy(stream, CRLF_CRLF, k + |chunks[0]|)
    ensures var post := PostFrom(stream[..k], None, chunks);
            post == Refused(400) || (post == Answer(stream, p, 4) && InReach(stream, q, p))
  {
    hide Fragments, PostFrom, HandlePost, Answer, ContentLength, HeaderEnd;
    hide NoneBy, FirstAt, LfHead, LfRequest, LfEnd;
    LfRequestParts(stream, q);
    CrlfSameLength(stream, q, p);
    var next := k + |chunks[0]|;
    assert stream[k..|stream|] == stream[k..];
    NextPrefix(stream, k, |stream|, chunks);
    ArriveLf(stream, q, k, chunks);
    if q <= MAX_HTTP_HEADER_BYTES {
      assert stream[next..|stream|] == stream[next..];
      var m := Finish(stream, next, LfEnd(stream, q), chunks[1..]);
      HandlePastCrlf(stream, q, p, m);
    }
  }

  lemma SettleSplit(stream: Bytes, q: nat, p: nat, k: nat, chunks: seq<Bytes>)
    requires LfRequest(stream, q) && FirstAt(stream, CRLF_CRLF, p) && p + 4 <= LfEnd(stream, q)
    requires k < q + 2 && k <= |stream| && Fragments(chunks, stream[k..])
    requires chunks != [] && k + |chunks[0]| >= q + 2
    ensures var post := PostFrom(stream[..k], None, chunks);
            post == Refused(400) || (post == Answer(stream, p, 4) && InReach(stream, q, p))
  {
    var next := k + |chunks[0]|;
    if next < p + 4 {
      assert NoneBy(stream, CRLF_CRLF, next);
      SettleEarly(stream, q, p, k, chunks);
    } else {
      assert |chunks[0]| <= READ_CHUNK && q <= |stream|;
      hide Fragments, PostFrom, HandlePost, Answer, ContentLength, HeaderEnd;
      hide NoneBy, FirstAt, LfHead, LfRequest, LfEnd;
      CrlfInBody(stream, q, p);
      ArriveCrlf(stream, p, k, chunks);
    }
  }

  /** If a CR LF CR LF ends inside the body of the LF head, at p, then every fragmentation is
      refused with 400 or gets that head's answer: the bytes after it. Some fragmentation is
      refused, and some gets those bytes exactly when they are in reach. */
  lemma SplitBody(stream: Bytes, q: nat, p: nat)
    requires LfRequest(stream, q) && FirstAt(stream, CRLF_CRLF, p) && p + 4 <= LfEnd(stream, q)
    ensures forall chunks: seq<Bytes> :: Fragments(chunks, stream) ==>
              PostOf(chunks) == Refused(400) || PostOf(chunks) == Answer(stream, p, 4)
    ensures exists chunks: seq<Bytes> :: Fragments(chunks, stream) && PostOf(chunks) == Refused(400)
    ensures (exists chunks: seq<Bytes> :: Fragments(chunks, stream) && PostOf(chunks) != Refused(400))
            <==> InReach(stream, q, p)
  {
    hide Fragments, PostOf, HandlePost, Answer, ContentLength, FirstAt, LfHead, LfRequest, LfEnd;
    LfRequestParts(stream, q);
    CrlfInBody(stream, q, p);
    forall chunks: seq<Bytes> | Fragments(chunks, stream)
      ensures PostOf(chunks) == Refused(400) || (PostOf(chunks) == Answer(stream, p, 4) && InReach(stream, q, p))
    {
      ReadSplit(stream, q, p, chunks);
    }
    var total := LfEnd(stream, q);
    if q <= MAX_HTTP_HEADER_BYTES {
      var cut := LfStop(stream, q, total);
      HandlePastCrlf(stream, q, p, total);
    } else {
      var any := Pieces(stream);
      assert Fragments(any, stream);
    }
    if InReach(stream, q, p) {
      var m := p + 4 + ContentLength(stream[..q]);
      var passed := LfStop(stream, q, m);
      HandlePastCrlf(stream, q, p, m);
    }
  }

  lemma ReadSplit(stream: Bytes, q: nat, p: nat, chunks: seq<Bytes>)
    requires LfRequest(stream, q) && FirstAt(stream, CRLF_CRLF, p) && p + 4 <= LfEnd(stream, q)
    requires Fragments(chunks, stream)
    ensures PostOf(chunks) == Refused(400) || (PostOf(chunks) == Answer(stream, p, 4) && InReach(stream, q, p))
  {
    hide Fragments, PostFrom, Answer, ContentLength, FirstAt, LfHead, LfRequest, LfEnd;
    LfRequestParts(stream, q);
    CrlfInBody(stream, q, p);
    StartsEmpty(stream);
    var k, rest := ReadToLf(stream, q, 0, chunks);
    SettleSplit(stream, q, p, k, rest);
  }

  // Those that declare none.

  /** The later head that one read can bring together with the early empty line. */
  ghost predicate LaterHead(stream: Bytes, q: nat, p: nat) {
    && FirstAt(stream, CRLF_CRLF, p)
    && p <= 65_536 && p - q <= 4_093
    && Answer(stream, p, 4) != Refused(400)
  }

  /** The read that brings the LF LF: refused, or the answer of a later head it brings too. */
  lemma SettleLengthless(stream: Bytes, q: nat, k: nat, chunks: seq<Bytes>)
    requires FirstAt(stream, LF_LF, q) && ContentLength(stream[..q]) == 0
    requires k < q + 2 && k <= |stream| && Fragments(chunks, stream[k..])
    requires chunks != [] && k + |chunks[0]| >= q + 2
    ensures PostFrom(stream[..k], None, chunks) == Refused(400) || exists p: nat :: LaterHead(stream, q, p)
  {
    hide PostFrom, HandlePost, Answer, ContentLength, HeaderEnd, FirstAt;
    assert stream[k..|stream|] == stream[k..];
    NextPrefix(stream, k, |stream|, chunks);
    var next := k + |chunks[0]|;
    if NoneBy(stream, CRLF_CRLF, next) {
      hide NoneBy;
      ArriveLf(stream, q, k, chunks);
      EmptyBodyRefused(stream, q, next);
    } else {
      var j: nat :| j + 4 <= next && OccursAt(stream, CRLF_CRLF, j);
      var p := FirstOccurrence(stream, CRLF_CRLF, j);
      ArriveCrlf(stream, p, k, chunks);
      if PostFrom(stream[..k], None, chunks) != Refused(400) {
        assert LaterHead(stream, q, p);
      }
    }
  }

  lemma EmptyBodyRefused(stream: Bytes, q: nat, k: nat)
    requires FirstAt(stream, LF_LF, q) && q + 2 <= k <= |stream| && NoneBy(stream, CRLF_CRLF, k)
    requires ContentLength(stream[..q]) == 0
    ensures HandlePost(stream[..k]) == Refused(400)
  {
    hide FirstAt, NoneBy, HeaderEnd, ContentLength;
    PrefixHeaderEnd(stream, k, q);
    assert stream[..k][..q] == stream[..q];
  }

  lemma LaterHeadParts(stream: Bytes, q: nat, p: nat)
    requires LfHead(stream, q) && LaterHead(stream, q, p)
    ensures q + 2 <= p && p + 4 <= |stream| && FirstAt(stream, LF_LF, q) && FirstAt(stream, CRLF_CRLF, p)
    ensures p <= MAX_HTTP_HEADER_BYTES && p - q <= READ_CHUNK - 3 && Answer(stream, p, 4) != Refused(400)
  {
    CrlfAfterLf(stream, q, p);
  }

  /** With a later head in reach, the request is refused under one fragmentation and gets that
      head's answer under another. */
  lemma LengthlessDepends(stream: Bytes, q: nat, p: nat) returns (early: seq<Bytes>, late: seq<Bytes>)
    requires LfHead(stream, q) && ContentLength(stream[..q]) == 0 && LaterHead(stream, q, p)
    ensures Fragments(early, stream) && PostOf(early) == Refused(400)
    ensures Fragments(late, stream) && PostOf(late) == Answer(stream, p, 4) != Refused(400)
  {
    hide Fragments, PostOf, PostFrom, HandlePost, Answer, ContentLength, HeaderEnd, FirstAt, LfHead, LaterHead, NoneBy;
    LaterHeadParts(stream, q, p);
    LfHeadHidden(stream, q, q + 1);
    LfHeadHidden(stream, q, q + 2);
    var one := OneRead(stream, q + 1, q + 2, Pieces(stream[q + 2..]));
    assert |one[0]| == 1;
    ArriveLf(stream, q, q + 1, one);
    EmptyBodyRefused(stream, q, q + 2);
    early := HiddenThen(stream, q + 1, one);
    var both := OneRead(stream, q + 1, p + 4, Pieces(stream[p + 4..]));
    ArriveCrlf(stream, p, q + 1, both);
    late := HiddenThen(stream, q + 1, both);
  }

  /** Some fragmentation is answered other than 400 exactly when the first CR LF CR LF ends a
      head in range, fits one read together with the end of the early empty line, and has
      another answer. */
  lemma LengthlessAnswered(stream: Bytes, q: nat)
    requires LfHead(stream, q) && ContentLength(stream[..q]) == 0
    ensures (exists chunks: seq<Bytes> :: Fragments(chunks, stream) && PostOf(chunks) != Refused(400))
            <==> exists p: nat :: LaterHead(stream, q, p)
  {
    assert FirstAt(stream, LF_LF, q);
    hide PostFrom, FirstAt, LfHead, LaterHead, ContentLength;
    StartsEmpty(stream);
    forall chunks: seq<Bytes> | Fragments(chunks, stream) && PostOf(chunks) != Refused(400)
      ensures exists p: nat :: LaterHead(stream, q, p)
    {
      var k, rest := ReadToLf(stream, q, 0, chunks);
      SettleLengthless(stream, q, k, rest);
    }
    if p: nat :| LaterHead(stream, q, p) {
      var early, late := LengthlessDepends(stream, q, p);
    }
  }

  // Streams without a head, and all streams.

  lemma HeadlessRefused(stream: Bytes, chunks: seq<Bytes>)
    requires NoneBy(stream, CRLF_CRLF, |stream|) && NoneBy(stream, LF_LF, |stream|) && Fragments(chunks, stream)
    ensures PostOf(chunks) == Refused(400)
  {
    hide NoneBy;
    StartsEmpty(stream);
    assert stream[0..|stream|] == stream && stream[..|stream|] == stream && chunks + [] == chunks;
    SkipHidden(stream, 0, |stream|, chunks, []);
    PrefixHeaderEnd(stream, |stream|, 0);
  }

  /** Every stream has no head, one of the first kind or one of the second. */
  lemma HeadCases(stream: Bytes)
    ensures || (NoneBy(stream, CRLF_CRLF, |stream|) && NoneBy(stream, LF_LF, |stream|))
            || (exists p: nat :: CrlfHead(stream, p))
            || (exists q: nat :: LfHead(stream, q) && (ContentLength(stream[..q]) == 0
                                                       || LfHopeless(stream, q) || LfRequest(stream, q)))
  {
    hide ContentLength;
    var crlf, lf := FindBytes(stream, CRLF_CRLF), FindBytes(stream, LF_LF);
    if crlf.Some? && (lf.None? || crlf.value <= lf.value) {
      assert CrlfHead(stream, crlf.value);
    } else if lf.Some? {
      assert LfHead(stream, lf.value);
    }
  }
}
