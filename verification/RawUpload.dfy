/** The bytes a raw upload stores. */
module RawUpload {
  import opened Bytes

  const CHUNK := 4096

  /** The bytes received when the first `needed` of `total` bytes are there, for one cutting of the stream. */
  function Received(total: nat, cut: Cutting, base: nat, needed: nat, received: nat): (r: nat)
    requires received <= total && needed <= total
    ensures needed <= r <= total
    ensures received < needed + CHUNK ==> r < needed + CHUNK
    decreases needed - received
  {
    if received >= needed then received
    else Received(total, cut, base, needed, received + PieceSize(cut, base + received, total - received, CHUNK))
  }

  const CR: byte := 13
  const LF: byte := 10

  /** Line break to drop before the payload, if more bytes than announced are already there. */
  function Separator(buffered: seq<byte>, size: nat): (n: nat)
    ensures n <= |buffered|
  {
    if |buffered| > size && [CR, LF] <= buffered then 2
    else if |buffered| > size && [LF] <= buffered then 1
    else 0
  }

  function AtMost(s: seq<byte>, n: nat): seq<byte> {
    if |s| <= n then s else s[..n]
  }

  /** The bytes after the key: a line break in front of too many of them is dropped, and what is missing is read. */
  method ReceiveUpload(stream: ByteStream, size: nat, buffered: seq<byte>) returns (written: seq<byte>, count: nat)
    modifies stream
    ensures count == |written| <= size
    ensures written == AtMost((buffered + old(stream.data))[Separator(buffered, size)..], size)
    ensures var received := |buffered| - Separator(buffered, size);
      if received >= size then stream.data == old(stream.data)
      else written + stream.data == (buffered + old(stream.data))[Separator(buffered, size)..]
  {
    var remaining := buffered;
    if |remaining| > size && ([CR, LF] <= remaining || [LF] <= remaining) {
      if [CR, LF] <= remaining {
        remaining := remaining[2..];
      } else {
        remaining := remaining[1..];
      }
    }
    assert remaining + stream.data == (buffered + stream.data)[Separator(buffered, size)..];
    written, count := WritePayload(stream, size, remaining);
  }

  /** Writes what is there, and then no more from the stream than is missing. */
  method WritePayload(stream: ByteStream, size: nat, remaining: seq<byte>) returns (written: seq<byte>, count: nat)
    modifies stream
    ensures count == |written| <= size && written == AtMost(remaining + old(stream.data), size)
    ensures if |remaining| >= size then stream.data == old(stream.data)
            else written + stream.data == remaining + old(stream.data)
  {
    ghost var all := remaining + stream.data;
    written, count := [], 0;
    if remaining != [] {
      var n := if |remaining| <= size then |remaining| else size;
      written := remaining[..n];
      count := n;
    }
    if count == size {
      assert written == AtMost(all, size);
      return;
    }
    while count < size
      invariant count == |written| <= size && written + stream.data == all
      decreases size - count
    {
      var want := if size - count <= CHUNK then size - count else CHUNK;
      var chunk := stream.Read(want);
      if chunk == [] {
        assert written == all;
        return;
      }
      written := written + chunk;
      count := count + |chunk|;
      assert written + stream.data == all;
    }
    assert written == all[..size];
  }

  /** What is stored when `buffered` bytes of the payload arrive together with the key. */
  function StoredAfter(payload: seq<byte>, size: nat, buffered: nat): seq<byte>
    requires buffered <= |payload|
  {
    AtMost(payload[Separator(payload[..buffered], size)..], size)
  }

  /** What is stored for one cutting of a stream whose first `consumed` bytes are the key. */
  function UploadWith(stream: seq<byte>, consumed: nat, size: nat, cut: Cutting, base: nat): seq<byte>
    requires consumed <= |stream|
  {
    StoredAfter(stream[consumed..], size, Received(|stream|, cut, base, consumed, 0) - consumed)
  }

  lemma ExactSizeIsStored(stream: seq<byte>, consumed: nat, cut: Cutting, base: nat)
    requires consumed <= |stream|
    ensures UploadWith(stream, consumed, |stream| - consumed, cut, base) == stream[consumed..]
  {
    var payload := stream[consumed..];
    assert payload[0..] == payload;
  }

  // --- Which bytes an upload stores ---

  /** The line break the payload starts with. */
  function LeadingBreak(payload: seq<byte>): (r: seq<byte>)
    ensures r <= payload
  {
    if [CR, LF] <= payload then [CR, LF] else if [LF] <= payload then [LF] else []
  }

  /** More than announced follows, it starts with a line break, and what arrives with the key can be more than
      announced. */
  predicate MayDropLineBreak(payload: seq<byte>, size: nat) {
    |payload| > size && LeadingBreak(payload) != [] && size < CHUNK - 1
  }

  /** Everything a payload can lead to: it is stored from its start, or without its leading line break. */
  function PossibleUploads(payload: seq<byte>, size: nat): set<seq<byte>> {
    {AtMost(payload, size)}
    + if MayDropLineBreak(payload, size) then {AtMost(payload[|LeadingBreak(payload)|..], size)} else {}
  }

  lemma StoredIsPossible(payload: seq<byte>, size: nat, buffered: nat)
    requires buffered <= |payload| && buffered < CHUNK
    ensures StoredAfter(payload, size, buffered) in PossibleUploads(payload, size)
  {
    var b := payload[..buffered];
    assert payload[0..] == payload;
    assert forall i :: 0 <= i < |b| ==> b[i] == payload[i];
  }

  /** The most that can arrive together with the key. */
  function MostBuffered(payload: seq<byte>): nat {
    if |payload| < CHUNK then |payload| else CHUNK - 1
  }

  lemma BothAreStored(payload: seq<byte>, size: nat)
    ensures StoredAfter(payload, size, 0) == AtMost(payload, size)
    ensures MayDropLineBreak(payload, size) ==>
      StoredAfter(payload, size, MostBuffered(payload)) == AtMost(payload[|LeadingBreak(payload)|..], size)
  {
    assert payload[0..] == payload;
    var b := payload[..MostBuffered(payload)];
    assert forall i :: 0 <= i < |b| ==> b[i] == payload[i];
  }

  /** The cutting that delivers the last byte of the key together with `extra` bytes. */
  function WithKey(last: nat, extra: nat): Cutting {
    (at: nat) => if at == last then extra + 1 else 1
  }

  lemma {:induction false} ArrivesWithKey(total: nat, base: nat, needed: nat, extra: nat, received: nat)
    requires received < needed && needed + extra <= total && extra < CHUNK
    ensures Received(total, WithKey(base + needed - 1, extra), base, needed, received) == needed + extra
    decreases needed - received
  {
    if received + 1 < needed {
      ArrivesWithKey(total, base, needed, extra, received + 1);
    }
  }

  /** The stored bytes are among the possible ones, and each of those is stored for some cutting. */
  lemma PossibleUploadsOccur(stream: seq<byte>, consumed: nat, size: nat, base: nat, stored: seq<byte>)
    requires 0 < consumed <= |stream|
    ensures stored in PossibleUploads(stream[consumed..], size)
       <==> exists cut: Cutting :: UploadWith(stream, consumed, size, cut, base) == stored
  {
    var payload, last := stream[consumed..], base + consumed - 1;
    forall cut: Cutting ensures UploadWith(stream, consumed, size, cut, base) in PossibleUploads(payload, size) {
      StoredIsPossible(payload, size, Received(|stream|, cut, base, consumed, 0) - consumed);
    }
    if stored in PossibleUploads(payload, size) {
      var extra := if stored == AtMost(payload, size) then 0 else MostBuffered(payload);
      ArrivesWithKey(|stream|, base, consumed, extra, 0);
      BothAreStored(payload, size);
      assert UploadWith(stream, consumed, size, WithKey(last, extra), base) == stored;
    }
  }

  /** The payload starts with nothing but repetitions of its line break, as far as it is stored. */
  predicate OnlyLineBreaks(payload: seq<byte>, size: nat)
    requires LeadingBreak(payload) != []
  {
    var b := LeadingBreak(payload);
    size + |b| <= |payload| && forall i :: 0 <= i < size + |b| ==> payload[i] == b[i % |b|]
  }

  /** The stored bytes repeat at a distance of `n`. */
  ghost predicate Repeats(payload: seq<byte>, size: nat, n: nat) {
    size + n <= |payload| && forall i :: 0 <= i < size ==> At(payload, i + n) == At(payload, i)
  }

  function At(payload: seq<byte>, i: nat): int {
    if i < |payload| then payload[i] else -1
  }

  lemma {:induction false} RepeatsBreak(payload: seq<byte>, size: nat, i: nat)
    requires LeadingBreak(payload) != [] && Repeats(payload, size, |LeadingBreak(payload)|)
    requires i < size + |LeadingBreak(payload)|
    ensures payload[i] == LeadingBreak(payload)[i % |LeadingBreak(payload)|]
    decreases i
  {
    var b := LeadingBreak(payload);
    assert b == payload[..|b|];
    if i >= |b| {
      RepeatsBreak(payload, size, i - |b|);
      assert At(payload, (i - |b|) + |b|) == At(payload, i - |b|);
      RemainderShift(i - |b|, |b|);
    }
  }

  lemma RemainderShift(i: nat, n: nat)
    requires n == 1 || n == 2
    ensures (i + n) % n == i % n
  {
  }

  lemma OnlyBreaksRepeat(payload: seq<byte>, size: nat)
    requires LeadingBreak(payload) != []
    ensures OnlyLineBreaks(payload, size) <==> Repeats(payload, size, |LeadingBreak(payload)|)
  {
    var b := LeadingBreak(payload);
    if Repeats(payload, size, |b|) {
      forall i | 0 <= i < size + |b| ensures payload[i] == b[i % |b|] {
        RepeatsBreak(payload, size, i);
      }
    }
    if OnlyLineBreaks(payload, size) {
      forall i | 0 <= i < size ensures At(payload, i + |b|) == At(payload, i) {
        RemainderShift(i, |b|);
        assert payload[i + |b|] == b[(i + |b|) % |b|];
      }
    }
  }

  lemma DropChangesNothing(payload: seq<byte>, size: nat)
    requires |payload| > size && LeadingBreak(payload) != []
    ensures AtMost(payload[|LeadingBreak(payload)|..], size) == AtMost(payload, size) <==> OnlyLineBreaks(payload, size)
  {
    var b := LeadingBreak(payload);
    var kept, dropped := AtMost(payload, size), AtMost(payload[|b|..], size);
    OnlyBreaksRepeat(payload, size);
    if dropped == kept {
      assert size + |b| <= |payload|;
      forall i | 0 <= i < size ensures At(payload, i + |b|) == At(payload, i) {
        assert dropped[i] == kept[i];
      }
    }
    if Repeats(payload, size, |b|) {
      forall i | 0 <= i < size ensures dropped[i] == kept[i] {
        assert At(payload, i + |b|) == At(payload, i);
      }
    }
  }

  lemma OneUpload(payload: seq<byte>, size: nat, s: seq<byte>, t: seq<byte>)
    requires s in PossibleUploads(payload, size) && t in PossibleUploads(payload, size)
    requires !MayDropLineBreak(payload, size) || OnlyLineBreaks(payload, size)
    ensures s == t
  {
    if MayDropLineBreak(payload, size) { DropChangesNothing(payload, size); }
  }

  lemma TwoUploads(stream: seq<byte>, consumed: nat, size: nat, base: nat, c: Cutting, d: Cutting)
    requires 0 < consumed <= |stream|
    requires MayDropLineBreak(stream[consumed..], size) && !OnlyLineBreaks(stream[consumed..], size)
    requires c == WithKey(base + consumed - 1, 0)
    requires d == WithKey(base + consumed - 1, MostBuffered(stream[consumed..]))
    ensures UploadWith(stream, consumed, size, c, base) != UploadWith(stream, consumed, size, d, base)
  {
    var payload := stream[consumed..];
    DropChangesNothing(payload, size);
    BothAreStored(payload, size);
    ArrivesWithKey(|stream|, base, consumed, 0, 0);
    ArrivesWithKey(|stream|, base, consumed, MostBuffered(payload), 0);
  }

  /** The stored bytes do not depend on the cutting exactly when no line break may be dropped or dropping it
      shows nowhere. */
  lemma CuttingMattersForBreaks(stream: seq<byte>, consumed: nat, size: nat, base: nat)
    requires 0 < consumed <= |stream|
    ensures (forall c: Cutting, d: Cutting ::
               UploadWith(stream, consumed, size, c, base) == UploadWith(stream, consumed, size, d, base))
      <==> !MayDropLineBreak(stream[consumed..], size) || OnlyLineBreaks(stream[consumed..], size)
  {
    var payload, last := stream[consumed..], base + consumed - 1;
    if !MayDropLineBreak(payload, size) || OnlyLineBreaks(payload, size) {
      forall c: Cutting, d: Cutting
        ensures UploadWith(stream, consumed, size, c, base) == UploadWith(stream, consumed, size, d, base)
      {
        StoredIsPossible(payload, size, Received(|stream|, c, base, consumed, 0) - consumed);
        StoredIsPossible(payload, size, Received(|stream|, d, base, consumed, 0) - consumed);
        OneUpload(payload, size, UploadWith(stream, consumed, size, c, base),
                  UploadWith(stream, consumed, size, d, base));
      }
    } else {
      TwoUploads(stream, consumed, size, base, WithKey(last, 0), WithKey(last, MostBuffered(payload)));
    }
  }

  /** Two bytes are announced, and a line break and two bytes follow the key. */
  lemma DroppedBreakExample(key: seq<byte>)
    requires key != []
    ensures exists c: Cutting :: UploadWith(key + [LF, 97, 98], |key|, 2, c, 0) == [LF, 97]
    ensures exists c: Cutting :: UploadWith(key + [LF, 97, 98], |key|, 2, c, 0) == [97, 98]
  {
    var stream := key + [LF, 97, 98];
    assert stream[|key|..] == [LF, 97, 98];
    assert [LF, 97, 98][..2] == [LF, 97] && [LF, 97, 98][1..] == [97, 98];
    PossibleUploadsOccur(stream, |key|, 2, 0, [LF, 97]);
    PossibleUploadsOccur(stream, |key|, 2, 0, [97, 98]);
  }
}
