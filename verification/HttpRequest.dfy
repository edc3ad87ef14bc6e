/** Reading an HTTP request from a stream and cutting the payload out of a multipart upload. */
module HttpRequest {
  import opened Collections
  import opened Bytes

  const CR: byte := 13
  const LF: byte := 10
  const HYPHEN: byte := 45
  const TERMINATOR: seq<byte> := [CR, LF, CR, LF]
  const HEADER_LIMIT := 1024 * 1024
  const CHUNK := 8192

  // --- First occurrence ---

  predicate OccursAt(haystack: seq<byte>, needle: seq<byte>, i: nat) {
    i + |needle| <= |haystack| && haystack[i..i + |needle|] == needle
  }

  function FindFrom(haystack: seq<byte>, needle: seq<byte>, i: nat): (r: Option<nat>)
    ensures r.Some? ==> r.value + |needle| <= |haystack|
    decreases |haystack| - i
  {
    if i + |needle| > |haystack| then None
    else if haystack[i..i + |needle|] == needle then Some(i)
    else FindFrom(haystack, needle, i + 1)
  }

  function FindSubslice(haystack: seq<byte>, needle: seq<byte>): (r: Option<nat>)
    ensures r.Some? ==> r.value + |needle| <= |haystack|
  {
    if needle == [] || |haystack| < |needle| then None else FindFrom(haystack, needle, 0)
  }

  ghost predicate IsFirst(haystack: seq<byte>, needle: seq<byte>, from: nat, r: Option<nat>) {
    match r
    case Some(p) =>
      from <= p && OccursAt(haystack, needle, p) && forall j :: from <= j < p ==> !OccursAt(haystack, needle, j)
    case None => forall j :: from <= j ==> !OccursAt(haystack, needle, j)
  }

  lemma {:induction false} FindFromIsFirst(haystack: seq<byte>, needle: seq<byte>, i: nat)
    ensures IsFirst(haystack, needle, i, FindFrom(haystack, needle, i))
    decreases |haystack| - i
  {
    if i + |needle| <= |haystack| && haystack[i..i + |needle|] != needle {
      FindFromIsFirst(haystack, needle, i + 1);
    }
  }

  /** The position found is the first occurrence; nothing is found exactly when there is none. An empty needle is
      never found. */
  lemma FindsFirst(haystack: seq<byte>, needle: seq<byte>)
    ensures if needle == [] then FindSubslice(haystack, needle).None?
            else IsFirst(haystack, needle, 0, FindSubslice(haystack, needle))
  {
    if needle != [] && |haystack| >= |needle| { FindFromIsFirst(haystack, needle, 0); }
  }

  lemma FirstIs(haystack: seq<byte>, needle: seq<byte>, r: Option<nat>)
    requires needle != [] && IsFirst(haystack, needle, 0, r)
    ensures FindSubslice(haystack, needle) == r
  {
    FindsFirst(haystack, needle);
  }

  lemma OccursInPrefix(prefix: seq<byte>, s: seq<byte>, needle: seq<byte>, i: nat)
    requires prefix <= s && i + |needle| <= |prefix|
    ensures OccursAt(prefix, needle, i) <==> OccursAt(s, needle, i)
  {
    assert prefix[i..i + |needle|] == s[i..i + |needle|];
  }

  /** The first occurrence in what has arrived is the first occurrence in the whole stream. */
  lemma FindIsStable(prefix: seq<byte>, s: seq<byte>, needle: seq<byte>)
    requires prefix <= s && needle != []
    ensures var p, q := FindSubslice(prefix, needle), FindSubslice(s, needle);
      if q.Some? && q.value + |needle| <= |prefix| then p == q else p.None?
  {
    var p, q := FindSubslice(prefix, needle), FindSubslice(s, needle);
    FindsFirst(prefix, needle);
    FindsFirst(s, needle);
    if p.Some? {
      forall j | 0 <= j <= p.value ensures OccursAt(prefix, needle, j) <==> OccursAt(s, needle, j) {
        OccursInPrefix(prefix, s, needle, j);
      }
    }
    if q.Some? && q.value + |needle| <= |prefix| {
      OccursInPrefix(prefix, s, needle, q.value);
    }
  }

  // --- Request framing ---

  datatype Request = Parsed(header: seq<byte>, body: seq<byte>) | UnexpectedEnd | TooLarge | BadHeader

  /** What a complete stream means. `contentLength` stands for the header parser: the announced length of the
      body (0 when none is given), or nothing when the request line is unusable. */
  function RequestIn(stream: seq<byte>, contentLength: seq<byte> -> Option<nat>): Request {
    match FindSubslice(stream, TERMINATOR)
    case None => UnexpectedEnd
    case Some(p) =>
      var end := p + 4;
      match contentLength(stream[..end])
      case None => BadHeader
      case Some(n) => if |stream| < end + n then UnexpectedEnd else Parsed(stream[..end], stream[end..end + n])
  }

  predicate HeaderEndsBy(stream: seq<byte>, limit: int) {
    FindSubslice(stream, TERMINATOR).Some? && FindSubslice(stream, TERMINATOR).value + 4 <= limit
  }

  datatype HeaderResult = HeaderEnd(end: nat) | NoHeaderEnd | OverLimit

  /** The outcome of the header loop on a stream that starts at `base` and is cut as `cut` says, once `received`
      bytes are there. */
  function HeaderLoop(all: seq<byte>, cut: Cutting, base: nat, received: nat): HeaderResult
    requires received <= |all|
    decreases |all| - received
  {
    if received == |all| then NoHeaderEnd else
      var received' := received + PieceSize(cut, base + received, |all| - received, CHUNK);
      if received' > HEADER_LIMIT then OverLimit else
        match FindSubslice(all[..received'], TERMINATOR)
        case Some(p) => HeaderEnd(p + 4)
        case None => HeaderLoop(all, cut, base, received')
  }

  /** The request read from a stream with one cutting. */
  function RequestWith(all: seq<byte>, cut: Cutting, base: nat, contentLength: seq<byte> -> Option<nat>): Request {
    if HeaderLoop(all, cut, base, 0) == OverLimit then TooLarge else RequestIn(all, contentLength)
  }

  /** What each outcome says about the stream. */
  lemma {:induction false} HeaderLoopSound(all: seq<byte>, cut: Cutting, base: nat, received: nat)
    requires received <= |all| && received <= HEADER_LIMIT && !HeaderEndsBy(all, received)
    ensures match HeaderLoop(all, cut, base, received)
      case HeaderEnd(end) => 4 <= end <= HEADER_LIMIT && FindSubslice(all, TERMINATOR) == Some(end - 4)
      case NoHeaderEnd => FindSubslice(all, TERMINATOR).None? && |all| <= HEADER_LIMIT
      case OverLimit => |all| > HEADER_LIMIT && !HeaderEndsBy(all, HEADER_LIMIT - CHUNK + 1)
    decreases |all| - received
  {
    if received < |all| {
      var received' := received + PieceSize(cut, base + received, |all| - received, CHUNK);
      if received' <= HEADER_LIMIT {
        FindIsStable(all[..received'], all, TERMINATOR);
        if FindSubslice(all[..received'], TERMINATOR).None? {
          HeaderLoopSound(all, cut, base, received');
        }
      }
    }
  }

  /** Bytes that arrive one at a time, with no header end among them yet, only fill the buffer. */
  lemma {:induction false} OneByOne(all: seq<byte>, cut: Cutting, base: nat, received: nat, until: nat)
    requires received <= until <= |all| && until <= HEADER_LIMIT && !HeaderEndsBy(all, until)
    requires forall at :: base + received <= at < base + until ==> cut(at) == 1
    ensures HeaderLoop(all, cut, base, received) == HeaderLoop(all, cut, base, until)
    decreases until - received
  {
    if received < until {
      FindIsStable(all[..received + 1], all, TERMINATOR);
      OneByOne(all, cut, base, received + 1, until);
    }
  }

  /** Headers that end within one piece of the limit, with more than the limit in the stream. */
  predicate InBand(all: seq<byte>) {
    |all| > HEADER_LIMIT && HeaderEndsBy(all, HEADER_LIMIT) && !HeaderEndsBy(all, HEADER_LIMIT - CHUNK + 1)
  }

  /** The cutting that delivers a full piece right before the header end is complete. */
  function LatePiece(all: seq<byte>, base: nat): Cutting
    requires FindSubslice(all, TERMINATOR).Some?
  {
    var last := base + FindSubslice(all, TERMINATOR).value + 3;
    (at: nat) => if at == last then CHUNK else 1
  }

  lemma BandGoesBothWays(all: seq<byte>, base: nat)
    requires InBand(all)
    ensures HeaderLoop(all, BYTE_BY_BYTE, base, 0).HeaderEnd?
    ensures HeaderLoop(all, LatePiece(all, base), base, 0) == OverLimit
  {
    var before := FindSubslice(all, TERMINATOR).value + 3;
    OneByOne(all, BYTE_BY_BYTE, base, 0, before);
    FindIsStable(all[..before + 1], all, TERMINATOR);
    OneByOne(all, LatePiece(all, base), base, 0, before);
  }

  /** The request depends on how the stream is cut exactly for streams in the band. */
  lemma CuttingMattersInBand(all: seq<byte>, base: nat, contentLength: seq<byte> -> Option<nat>)
    ensures (forall c: Cutting, d: Cutting ::
               RequestWith(all, c, base, contentLength) == RequestWith(all, d, base, contentLength)) <==> !InBand(all)
  {
    if InBand(all) {
      BandGoesBothWays(all, base);
      assert RequestWith(all, LatePiece(all, base), base, contentLength)
          != RequestWith(all, BYTE_BY_BYTE, base, contentLength);
    } else {
      forall c: Cutting
        ensures RequestWith(all, c, base, contentLength)
             == if |all| > HEADER_LIMIT && !HeaderEndsBy(all, HEADER_LIMIT) then TooLarge
                else RequestIn(all, contentLength)
      {
        HeaderLoopSound(all, c, base, 0);
      }
    }
  }

  /** A stream in the band: zeros, the header end right at the limit, and one byte more. */
  lemma BandExample()
    ensures var all := seq(HEADER_LIMIT - 4, i => 0) + TERMINATOR + [0];
      InBand(all)
  {
    var zeros: seq<byte> := seq(HEADER_LIMIT - 4, i => 0);
    assert |zeros| == HEADER_LIMIT - 4;
    FirstAfterZeros(zeros, [0]);
  }

  lemma FirstAfterZeros(zeros: seq<byte>, rest: seq<byte>)
    requires forall i :: 0 <= i < |zeros| ==> zeros[i] == 0
    ensures FindSubslice(zeros + TERMINATOR + rest, TERMINATOR) == Some(|zeros|)
  {
    var short := zeros + [CR, LF, CR];
    forall j: nat ensures !OccursAt(short, TERMINATOR, j) {
      if j + 4 <= |short| {
        assert short[j..j + 4][3] == short[j + 3];
        assert short[j..j + 4][0] == short[j];
      }
    }
    FirstIs(short, TERMINATOR, None);
    TerminatorAfter(zeros, rest);
  }

  lemma HeaderStep(all: seq<byte>, cut: Cutting, base: nat, before: nat, buffer: seq<byte>)
    requires before < |buffer| && buffer <= all
    requires |buffer| == before + PieceSize(cut, base + before, |all| - before, CHUNK)
    ensures HeaderLoop(all, cut, base, before) ==
      if |buffer| > HEADER_LIMIT then OverLimit else
        match FindSubslice(buffer, TERMINATOR)
        case Some(p) => HeaderEnd(p + 4)
        case None => HeaderLoop(all, cut, base, |buffer|)
  {
    assert buffer == all[..|buffer|];
  }

  /** The header block, for every cutting. */
  method ReceiveHeader(stream: ByteStream) returns (buffer: seq<byte>, result: HeaderResult)
    modifies stream
    ensures buffer + stream.data == old(stream.data)
    ensures result == HeaderLoop(old(stream.data), stream.cut, old(stream.position), 0)
    ensures result.HeaderEnd? ==> 4 <= result.end <= |buffer| <= HEADER_LIMIT
  {
    ghost var all, base := stream.data, stream.position;
    buffer := [];
    while true
      invariant buffer + stream.data == all && stream.position == base + |buffer| && |buffer| <= HEADER_LIMIT
      invariant HeaderLoop(all, stream.cut, base, |buffer|) == HeaderLoop(all, stream.cut, base, 0)
      decreases |stream.data|
    {
      ghost var before := |buffer|;
      var chunk := stream.Read(CHUNK);
      if chunk == [] {
        assert buffer == all;
        return buffer, NoHeaderEnd;
      }
      buffer := buffer + chunk;
      assert buffer + stream.data == all;
      HeaderStep(all, stream.cut, base, before, buffer);
      if |buffer| > HEADER_LIMIT {
        return buffer, OverLimit;
      }
      var found := FindSubslice(buffer, TERMINATOR);
      if found.Some? {
        return buffer, HeaderEnd(found.value + 4);
      }
    }
  }

  /** Read on until the buffer holds `size` bytes. */
  method ReceiveBody(stream: ByteStream, received: seq<byte>, size: nat) returns (buffer: seq<byte>, complete: bool)
    modifies stream
    ensures received <= buffer && buffer + stream.data == received + old(stream.data)
    ensures complete <==> size <= |received + old(stream.data)|
    ensures complete ==> size <= |buffer|
  {
    ghost var all := received + stream.data;
    buffer := received;
    while |buffer| < size
      invariant received <= buffer && buffer + stream.data == all
      decreases |stream.data|
    {
      var chunk := stream.Read(CHUNK);
      if chunk == [] {
        assert buffer == all;
        return buffer, false;
      }
      buffer := buffer + chunk;
      assert buffer + stream.data == all;
    }
    return buffer, true;
  }

  /** The outcome for one cutting, and the bounds it keeps for all of them: headers that end past the limit are
      always refused, and only those that end within one piece of it may be. */
  method ReadHttpRequest(stream: ByteStream, contentLength: seq<byte> -> Option<nat>) returns (request: Request)
    modifies stream
    ensures request == RequestWith(old(stream.data), stream.cut, old(stream.position), contentLength)
    ensures request == TooLarge || request == RequestIn(old(stream.data), contentLength)
    ensures request == TooLarge ==>
      |old(stream.data)| > HEADER_LIMIT && !HeaderEndsBy(old(stream.data), HEADER_LIMIT - CHUNK + 1)
    ensures |old(stream.data)| > HEADER_LIMIT && !HeaderEndsBy(old(stream.data), HEADER_LIMIT) ==> request == TooLarge
  {
    ghost var all := stream.data;
    HeaderLoopSound(all, stream.cut, stream.position, 0);
    var buffer, result := ReceiveHeader(stream);
    if result == OverLimit {
      return TooLarge;
    } else if result == NoHeaderEnd {
      return UnexpectedEnd;
    }
    var end := result.end;
    assert buffer[..end] == all[..end];
    var length := contentLength(buffer[..end]);
    if length.None? {
      return BadHeader;
    }
    var complete;
    buffer, complete := ReceiveBody(stream, buffer, end + length.value);
    if !complete {
      return UnexpectedEnd;
    }
    assert buffer[..end] == all[..end] && buffer[end..end + length.value] == all[end..end + length.value];
    return Parsed(buffer[..end], buffer[end..end + length.value]);
  }

  // --- Multipart ---

  function Delimiter(boundary: seq<byte>): seq<byte> {
    [HYPHEN, HYPHEN] + boundary
  }

  function EndMarker(boundary: seq<byte>): seq<byte> {
    [CR, LF] + Delimiter(boundary)
  }

  /** Nothing means that the body is refused. */
  function ExtractUploadPayload(boundary: Option<seq<byte>>, body: seq<byte>): Option<seq<byte>> {
    if boundary.None? || !(Delimiter(boundary.value) <= body) then None else
      match FindSubslice(body, TERMINATOR)
      case None => None
      case Some(p) =>
        var start := p + 4;
        match FindSubslice(body[start..], EndMarker(boundary.value))
        case None => None
        case Some(n) => Some(body[start..start + n])
  }

  /** A needle whose first byte occurs nowhere else in it cannot overlap itself. */
  lemma FirstOccurrence(s: seq<byte>, needle: seq<byte>, tail: seq<byte>)
    requires needle != [] && needle[0] !in needle[1..]
    ensures FindSubslice(s, needle).None? ==> FindSubslice(s + needle + tail, needle) == Some(|s|)
    ensures FindSubslice(s, needle).Some? ==> FindSubslice(s + needle + tail, needle) == FindSubslice(s, needle)
  {
    var text := s + needle + tail;
    assert text[|s|..|s| + |needle|] == needle;
    assert OccursAt(text, needle, |s|);
    forall j | 0 <= j < |s| ensures OccursAt(text, needle, j) <==> OccursAt(s, needle, j) {
      if j + |needle| <= |s| {
        OccursInPrefix(s, text, needle, j);
      } else {
        var k := |s| - j;
        assert text[j..j + |needle|][k] == text[|s|] == needle[0];
        assert needle[1..][k - 1] == needle[k];
      }
    }
    FindsFirst(s, needle);
    FindsFirst(text, needle);
    var p, q := FindSubslice(s, needle), FindSubslice(text, needle);
    assert q.Some? && q.value <= |s|;
  }

  lemma TerminatorAfter(head: seq<byte>, rest: seq<byte>)
    requires FindSubslice(head + [CR, LF, CR], TERMINATOR).None?
    ensures FindSubslice(head + TERMINATOR + rest, TERMINATOR) == Some(|head|)
  {
    var text, short := head + TERMINATOR + rest, head + [CR, LF, CR];
    assert text[|head|..|head| + 4] == TERMINATOR;
    assert OccursAt(text, TERMINATOR, |head|);
    assert short == text[..|head| + 3];
    FindsFirst(short, TERMINATOR);
    forall j | 0 <= j < |head| ensures !OccursAt(text, TERMINATOR, j) {
      OccursInPrefix(short, text, TERMINATOR, j);
    }
    FirstIs(text, TERMINATOR, Some(|head|));
  }

  /** The framing gives back the header block and the body that was sent, whatever follows them, and a cut-off
      request is recognised. */
  lemma FramingRoundTrip(head: seq<byte>, payload: seq<byte>, rest: seq<byte>, contentLength: seq<byte> -> Option<nat>)
    requires FindSubslice(head + [CR, LF, CR], TERMINATOR).None?
    ensures contentLength(head + TERMINATOR) == Some(|payload|) ==>
      RequestIn(head + TERMINATOR + (payload + rest), contentLength) == Parsed(head + TERMINATOR, payload)
    ensures contentLength(head + TERMINATOR).Some? && contentLength(head + TERMINATOR).value > |payload| ==>
      RequestIn(head + TERMINATOR + payload, contentLength) == UnexpectedEnd
    ensures contentLength(head + TERMINATOR).None? ==>
      RequestIn(head + TERMINATOR + payload, contentLength) == BadHeader
    ensures RequestIn(head + [CR, LF, CR], contentLength) == UnexpectedEnd
  {
    var end := |head| + 4;
    var whole, short := head + TERMINATOR + (payload + rest), head + TERMINATOR + payload;
    TerminatorAfter(head, payload + rest);
    TerminatorAfter(head, payload);
    assert whole[..end] == head + TERMINATOR && short[..end] == head + TERMINATOR;
    assert whole[end..end + |payload|] == payload;
  }

  lemma ExtractAfterHead(boundary: seq<byte>, head: seq<byte>, rest: seq<byte>)
    requires FindSubslice(Delimiter(boundary) + head + [CR, LF, CR], TERMINATOR).None?
    ensures ExtractUploadPayload(Some(boundary), Delimiter(boundary) + head + TERMINATOR + rest) ==
      match FindSubslice(rest, EndMarker(boundary))
      case None => None
      case Some(n) => Some(rest[..n])
  {
    var opening := Delimiter(boundary) + head;
    var body := opening + TERMINATOR + rest;
    TerminatorAfter(opening, rest);
    assert Delimiter(boundary) <= opening <= body;
    assert body[|opening| + 4..] == rest;
    match FindSubslice(rest, EndMarker(boundary))
    case None =>
    case Some(n) => assert body[|opening| + 4..|opening| + 4 + n] == rest[..n];
  }

  /** From a well-formed single-part body the payload comes back exactly when it does not contain the
      delimiter line itself. */
  lemma MultipartRoundTrip(boundary: seq<byte>, head: seq<byte>, payload: seq<byte>, tail: seq<byte>)
    requires CR !in boundary
    requires FindSubslice(Delimiter(boundary) + head + [CR, LF, CR], TERMINATOR).None?
    ensures var body := Delimiter(boundary) + head + TERMINATOR + (payload + EndMarker(boundary) + tail);
      ExtractUploadPayload(Some(boundary), body) == Some(payload) <==> FindSubslice(payload, EndMarker(boundary)).None?
  {
    var marker := EndMarker(boundary);
    var rest := payload + marker + tail;
    ExtractAfterHead(boundary, head, rest);
    PayloadBeforeMarker(boundary, payload, tail);
  }

  lemma PayloadBeforeMarker(boundary: seq<byte>, payload: seq<byte>, tail: seq<byte>)
    requires CR !in boundary
    ensures var rest := payload + EndMarker(boundary) + tail;
      var n := FindSubslice(rest, EndMarker(boundary));
      n.Some? && (rest[..n.value] == payload <==> FindSubslice(payload, EndMarker(boundary)).None?)
  {
    var marker := EndMarker(boundary);
    var rest := payload + marker + tail;
    assert marker[1..] == [LF] + Delimiter(boundary);
    FirstOccurrence(payload, marker, tail);
    assert rest[..|payload|] == payload;
  }
}
