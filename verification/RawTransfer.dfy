/** Redeeming a transfer key from a raw byte stream, and the upload that follows it. */
module RawTransfer {
  import opened Collections
  import opened Bytes
  import opened Numbers
  import opened TransferKeys
  import opened RawUpload

  type Pending = map<seq<byte>, Transfer>

  /** The registry's invariant: every transfer is filed under its own key, and ids are never reused. */
  ghost predicate ValidPending(pending: Pending, next: nat) {
    && (forall k :: k in pending ==> k == Key(pending[k].id, pending[k].size))
    && (forall k :: k in pending ==> pending[k].id < next)
    && (forall k :: k in pending ==> pending[k].id <= U64_MAX && pending[k].size <= U64_MAX)
    && (forall k, l :: k in pending && l in pending && k != l ==> pending[k].id != pending[l].id)
  }

  /** How many bytes of `buffer` the key takes up, plain or after `ftkey=`. */
  function Consumed(buffer: seq<byte>, key: seq<byte>): (r: Option<nat>)
    ensures r.Some? ==> |key| <= r.value <= |buffer|
  {
    if key <= buffer then Some(|key|)
    else if FTKEY <= buffer && key <= buffer[6..] then Some(6 + |key|)
    else None
  }

  lemma PrefixesCompare<T>(a: seq<T>, b: seq<T>, s: seq<T>)
    requires a <= s && b <= s
    ensures |a| <= |b| ==> a <= b
  {
    assert a == s[..|a|] && b == s[..|b|];
  }

  /** The start of a stream matches the keys of one transfer id at most, in one form only, whatever is pending. */
  lemma OneTransferMatches(buffer: seq<byte>, id: nat, size: nat, id': nat, size': nat)
    ensures Consumed(buffer, Key(id, size)).Some? && Consumed(buffer, Key(id', size')).Some? ==> id == id'
  {
    var k, l := Key(id, size), Key(id', size');
    KeyStart(id, size);
    KeyStart(id', size');
    if Consumed(buffer, k).Some? && Consumed(buffer, l).Some? {
      assert k[0] == 89 && l[0] == 89 && FTKEY[0] == 102;
      var from := if k <= buffer then 0 else 6;
      assert l <= buffer <==> k <= buffer;
      assert k <= buffer[from..] && l <= buffer[from..];
      PrefixesCompare(k, l, buffer[from..]);
      PrefixesCompare(l, k, buffer[from..]);
      KeysPrefixFree(id, size, id', size');
      KeysPrefixFree(id', size', id, size);
    }
  }

  /** So at most one pending key matches. */
  lemma OneMatch(pending: Pending, next: nat, buffer: seq<byte>, k: seq<byte>, l: seq<byte>)
    requires ValidPending(pending, next)
    ensures k in pending && l in pending && Consumed(buffer, k).Some? && Consumed(buffer, l).Some? ==> k == l
  {
    if k in pending && l in pending {
      OneTransferMatches(buffer, pending[k].id, pending[k].size, pending[l].id, pending[l].size);
    }
  }

  /** A match in the bytes received so far is the match in the whole stream, and the other way round once
      enough bytes are there. */
  lemma MatchIsStable(pending: Pending, next: nat, k: seq<byte>, buffer: seq<byte>, stream: seq<byte>)
    requires ValidPending(pending, next) && k in pending && buffer <= stream
    ensures Consumed(buffer, k).Some? ==> Consumed(stream, k) == Consumed(buffer, k)
    ensures Consumed(stream, k).Some? && Consumed(stream, k).value <= |buffer| ==>
      Consumed(buffer, k) == Consumed(stream, k)
  {
    KeyStart(pending[k].id, pending[k].size);
    assert k[0] == 89 && FTKEY[0] == 102;
    assert buffer == stream[..|buffer|];
    if |buffer| >= 6 {
      assert buffer[6..] == stream[6..][..|buffer| - 6];
    }
  }

  /** The pending key a stream starts with. */
  ghost function KeyIn(pending: Pending, stream: seq<byte>): (r: Option<seq<byte>>)
    ensures r.Some? ==> r.value in pending && Consumed(stream, r.value).Some?
    ensures r.None? ==> forall k :: k in pending ==> Consumed(stream, k).None?
  {
    if exists k :: k in pending && Consumed(stream, k).Some?
    then var k :| k in pending && Consumed(stream, k).Some?; Some(k)
    else None
  }

  ghost function ConsumedIn(pending: Pending, stream: seq<byte>): (n: nat)
    requires KeyIn(pending, stream).Some?
    ensures n <= |stream|
  {
    Consumed(stream, KeyIn(pending, stream).value).value
  }

  lemma KeyIs(pending: Pending, next: nat, stream: seq<byte>, k: seq<byte>)
    requires ValidPending(pending, next) && k in pending && Consumed(stream, k).Some?
    ensures KeyIn(pending, stream) == Some(k)
  {
    OneMatch(pending, next, stream, k, KeyIn(pending, stream).value);
  }

  /** A key recognised in what has arrived is the key of the whole stream; if none is recognised, the stream's key
      is still incomplete. */
  ghost predicate SameKeySoFar(pending: Pending, header: seq<byte>, stream: seq<byte>) {
    && (KeyIn(pending, header).Some? ==>
          && KeyIn(pending, stream) == KeyIn(pending, header)
          && ConsumedIn(pending, stream) == ConsumedIn(pending, header))
    && (KeyIn(pending, header).None? && KeyIn(pending, stream).Some? ==> |header| < ConsumedIn(pending, stream))
  }

  lemma KeyInPrefix(pending: Pending, next: nat, header: seq<byte>, stream: seq<byte>)
    requires ValidPending(pending, next) && header <= stream
    ensures SameKeySoFar(pending, header, stream)
  {
    if KeyIn(pending, header).Some? {
      var k := KeyIn(pending, header).value;
      MatchIsStable(pending, next, k, header, stream);
      KeyIs(pending, next, stream, k);
    } else if KeyIn(pending, stream).Some? {
      MatchIsStable(pending, next, KeyIn(pending, stream).value, header, stream);
    }
  }

  lemma KeysAreShort(pending: Pending, next: nat, stream: seq<byte>)
    requires ValidPending(pending, next) && KeyIn(pending, stream).Some?
    ensures ConsumedIn(pending, stream) <= 86
  {
    var k := KeyIn(pending, stream).value;
    KeyLength(pending[k].id, pending[k].size);
  }

  class Registry {
    var next: nat
    var pending: Pending

    constructor ()
      ensures Valid() && pending == map[] && next == 1
    {
      next, pending := 1, map[];
    }

    ghost predicate Valid()
      reads this
    {
      ValidPending(pending, next)
    }

    /** Each registration draws a fresh id, so it never displaces another transfer. */
    method PrepareTransfer(direction: Direction, path: string, size: nat) returns (key: seq<byte>)
      requires Valid() && next <= U64_MAX && size <= U64_MAX
      modifies this
      ensures Valid() && next == old(next) + 1
      ensures key !in old(pending)
      ensures pending == old(pending)[key := Transfer(old(next), direction, path, size)]
    {
      var transfer := Transfer(next, direction, path, size);
      next := next + 1;
      key := Key(transfer.id, transfer.size);
      if key in pending {
        KeysPrefixFree(transfer.id, transfer.size, pending[key].id, pending[key].size);
        assert false;
      }
      pending := pending[key := transfer];
    }

    method TakeTransfer(key: seq<byte>) returns (taken: Option<Transfer>)
      requires Valid()
      modifies this
      ensures Valid() && next == old(next) && pending == old(pending) - {key}
      ensures taken == if key in old(pending) then Some(old(pending)[key]) else None
    {
      taken := if key in pending then Some(pending[key]) else None;
      pending := pending - {key};
    }

    /** The map is scanned in an arbitrary order, yet the outcome is determined by the buffer. */
    method TakeTransferMatchingPrefix(buffer: seq<byte>) returns (taken: Option<(seq<byte>, Transfer, nat)>)
      requires Valid()
      modifies this
      ensures Valid() && next == old(next)
      ensures match KeyIn(old(pending), buffer)
        case None => taken.None? && pending == old(pending)
        case Some(k) =>
          taken == Some((k, old(pending)[k], ConsumedIn(old(pending), buffer))) && pending == old(pending) - {k}
    {
      var todo := pending.Keys;
      while todo != {}
        invariant todo <= pending.Keys && pending == old(pending)
        invariant forall k :: k in pending && k !in todo ==> Consumed(buffer, k).None?
        decreases todo
      {
        var k :| k in todo;
        var consumed := Consumed(buffer, k);
        if consumed.Some? {
          KeyIs(pending, next, buffer, k);
          taken := Some((k, pending[k], consumed.value));
          pending := pending - {k};
          return;
        }
        todo := todo - {k};
      }
      return None;
    }
  }

  // --- Finding the key in a stream ---

  const KEY_LIMIT := 1024

  /** The outcome as a function of the whole stream and its cutting. The key decides the transfer taken and the
      bytes that follow, received (`taken`) or still to come (`left`); how many have been received depends on the
      pieces. */
  ghost predicate KeyOutcome(pending: Pending, stream: seq<byte>, cut: Cutting, base: nat,
                             taken: Option<(Transfer, seq<byte>)>, left: seq<byte>, after: Pending)
  {
    match KeyIn(pending, stream)
    case None => taken.None? && after == pending
    case Some(k) =>
      var n := ConsumedIn(pending, stream);
      && taken.Some? && taken.value.0 == pending[k] && after == pending - {k}
      && taken.value.1 + left == stream[n..]
      && |taken.value.1| == Received(|stream|, cut, base, n, 0) - n
  }

  /** No key is complete yet, and what has arrived is what the cutting delivers. */
  ghost predicate StillWaiting(pending: Pending, stream: seq<byte>, cut: Cutting, base: nat, received: nat) {
    KeyIn(pending, stream).Some? && received <= |stream| ==>
      var n := ConsumedIn(pending, stream);
      received < n && Received(|stream|, cut, base, n, received) == Received(|stream|, cut, base, n, 0)
  }

  lemma AtStart(pending: Pending, next: nat, stream: seq<byte>, cut: Cutting, base: nat)
    requires ValidPending(pending, next)
    ensures StillWaiting(pending, stream, cut, base, 0)
  {
    if KeyIn(pending, stream).Some? {
      var k := KeyIn(pending, stream).value;
      KeyStart(pending[k].id, pending[k].size);
    }
  }

  lemma NextPiece(pending: Pending, header: seq<byte>, stream: seq<byte>, cut: Cutting, base: nat, before: nat)
    requires before < |header| <= |stream| && SameKeySoFar(pending, header, stream)
    requires StillWaiting(pending, stream, cut, base, before)
    requires |header| == before + PieceSize(cut, base + before, |stream| - before, CHUNK)
    ensures KeyIn(pending, header).None? ==> StillWaiting(pending, stream, cut, base, |header|)
    ensures KeyIn(pending, header).Some? ==> |header| == Received(|stream|, cut, base, ConsumedIn(pending, stream), 0)
  {
    if KeyIn(pending, stream).Some? {
      ReceivedStep(|stream|, cut, base, ConsumedIn(pending, stream), before);
    }
  }

  lemma ReceivedStep(total: nat, cut: Cutting, base: nat, needed: nat, before: nat)
    requires before < needed <= total
    ensures var received := before + PieceSize(cut, base + before, total - before, CHUNK);
      && Received(total, cut, base, needed, before) == Received(total, cut, base, needed, received)
      && (received >= needed ==> Received(total, cut, base, needed, before) == received)
  {
  }

  /** Either the piece completes the key, or the wait goes on. */
  lemma PieceOutcome(pending: Pending, next: nat, header: seq<byte>, left: seq<byte>, cut: Cutting, base: nat,
                     before: nat)
    requires ValidPending(pending, next) && before < |header|
    requires StillWaiting(pending, header + left, cut, base, before)
    requires |header| == before + PieceSize(cut, base + before, |header + left| - before, CHUNK)
    ensures match KeyIn(pending, header)
      case None => StillWaiting(pending, header + left, cut, base, |header|)
      case Some(k) =>
        KeyOutcome(pending, header + left, cut, base, Some((pending[k], header[ConsumedIn(pending, header)..])), left,
                   pending - {k})
  {
    var stream := header + left;
    KeyInPrefix(pending, next, header, stream);
    NextPiece(pending, header, stream, cut, base, before);
    if KeyIn(pending, header).Some? {
      FoundKey(pending, header, left, cut, base);
    }
  }

  lemma FoundKey(pending: Pending, header: seq<byte>, left: seq<byte>, cut: Cutting, base: nat)
    requires KeyIn(pending, header).Some? && SameKeySoFar(pending, header, header + left)
    requires |header| == Received(|header + left|, cut, base, ConsumedIn(pending, header), 0)
    ensures var k, n := KeyIn(pending, header).value, ConsumedIn(pending, header);
      KeyOutcome(pending, header + left, cut, base, Some((pending[k], header[n..])), left, pending - {k})
  {
    var n := ConsumedIn(pending, header);
    assert header[n..] + left == (header + left)[n..];
  }

  /** At the end of the stream, or past every possible key, there is no key. */
  lemma NoKey(pending: Pending, next: nat, stream: seq<byte>, cut: Cutting, base: nat, received: nat)
    requires ValidPending(pending, next) && StillWaiting(pending, stream, cut, base, received)
    requires received == |stream| || 86 < received <= |stream|
    ensures KeyIn(pending, stream).None?
  {
    if KeyIn(pending, stream).Some? { KeysAreShort(pending, next, stream); }
  }

  /** Whatever pieces the stream arrives in, the same transfer is redeemed and the same bytes follow it;
      the transfer can then not be redeemed again. A stream without a key is given up soon after the limit. */
  method ReceiveKey(stream: ByteStream, registry: Registry) returns (taken: Option<(Transfer, seq<byte>)>)
    requires registry.Valid()
    modifies stream, registry
    ensures registry.Valid()
    ensures KeyOutcome(old(registry.pending), old(stream.data), stream.cut, old(stream.position), taken, stream.data,
                       registry.pending)
    ensures var read := |old(stream.data)| - |stream.data|;
      taken.None? ==> read <= KEY_LIMIT + CHUNK && (stream.data == [] || read > KEY_LIMIT)
  {
    ghost var all, base, pending, next := stream.data, stream.position, registry.pending, registry.next;
    var header := [];
    AtStart(pending, next, all, stream.cut, base);
    while true
      invariant header + stream.data == all && stream.position == base + |header|
      invariant registry.pending == pending && registry.next == next && registry.Valid()
      invariant StillWaiting(pending, all, stream.cut, base, |header|) && |header| <= KEY_LIMIT
      decreases |stream.data|
    {
      ghost var before := |header|;
      var chunk := stream.Read(CHUNK);
      if chunk == [] {
        NoKey(pending, next, all, stream.cut, base, before);
        return None;
      }
      header := header + chunk;
      assert header + stream.data == all;
      PieceOutcome(pending, next, header, stream.data, stream.cut, base, before);
      var found := registry.TakeTransferMatchingPrefix(header);
      if found.Some? {
        var (key, transfer, consumed) := found.value;
        return Some((transfer, header[consumed..]));
      }
      if |header| > KEY_LIMIT {
        NoKey(pending, next, all, stream.cut, base, |header|);
        return None;
      }
    }
  }

  // --- The upload ---

  /** A transfer for upload stores the bytes of the payload that `UploadWith` names; its key is spent. */
  ghost predicate UploadOutcome(pending: Pending, stream: seq<byte>, cut: Cutting, base: nat,
                                stored: Option<(Transfer, seq<byte>)>, after: Pending)
  {
    match KeyIn(pending, stream)
    case None => stored.None? && after == pending
    case Some(k) =>
      && after == pending - {k}
      && stored == if pending[k].direction != Upload then None
                   else Some((pending[k],
                              UploadWith(stream, ConsumedIn(pending, stream), pending[k].size, cut, base)))
  }

  method ReceiveRawUpload(stream: ByteStream, registry: Registry) returns (stored: Option<(Transfer, seq<byte>)>)
    requires registry.Valid()
    modifies stream, registry
    ensures registry.Valid()
    ensures UploadOutcome(old(registry.pending), old(stream.data), stream.cut, old(stream.position), stored,
                          registry.pending)
  {
    var taken := ReceiveKey(stream, registry);
    if taken.None? || taken.value.0.direction != Upload {
      return None;
    }
    var (transfer, buffered) := taken.value;
    ghost var payload := buffered + stream.data;
    assert payload[..|buffered|] == buffered;
    var written, count := ReceiveUpload(stream, transfer.size, buffered);
    return Some((transfer, written));
  }

  /** A key, plain or after `ftkey=`, followed by exactly the announced number of bytes stores those bytes. */
  lemma RawUploadIsExact(pending: Pending, next: nat, k: seq<byte>, prefix: seq<byte>, payload: seq<byte>,
                         cut: Cutting, base: nat, stored: Option<(Transfer, seq<byte>)>, after: Pending)
    requires ValidPending(pending, next) && (prefix == [] || prefix == FTKEY)
    ensures k in pending && pending[k].direction == Upload && |payload| == pending[k].size
      && UploadOutcome(pending, prefix + k + payload, cut, base, stored, after)
      ==> stored == Some((pending[k], payload)) && k !in after
  {
    if k in pending {
      KeyStart(pending[k].id, pending[k].size);
      ConsumedForm(k, prefix, payload);
      KeyIs(pending, next, prefix + k + payload, k);
      ExactSizeIsStored(prefix + k + payload, |prefix| + |k|, cut, base);
    }
  }

  lemma ConsumedForm(k: seq<byte>, prefix: seq<byte>, payload: seq<byte>)
    requires (prefix == [] || prefix == FTKEY) && |k| > 0 && k[0] != FTKEY[0]
    ensures Consumed(prefix + k + payload, k) == Some(|prefix| + |k|)
    ensures (prefix + k + payload)[|prefix| + |k|..] == payload
  {
    var stream := prefix + k + payload;
    if prefix == [] {
      assert stream == k + payload;
    } else {
      assert stream[0] == FTKEY[0];
      assert stream == FTKEY + (k + payload) && stream[6..] == k + payload;
    }
  }

  // --- Runs of the registry ---

  datatype Operation = Prepare(direction: Direction, path: string, size: nat)
                     | Take(key: seq<byte>)
                     | TakePrefix(buffer: seq<byte>)

  /** The pending key an operation redeems. */
  ghost function Redeemed(pending: Pending, op: Operation): (r: Option<seq<byte>>)
    ensures r.Some? ==> r.value in pending
  {
    match op
    case Prepare(_, _, _) => None
    case Take(key) => if key in pending then Some(key) else None
    case TakePrefix(buffer) => KeyIn(pending, buffer)
  }

  /** The registry after an operation, and the id it redeems. */
  ghost function Operated(pending: Pending, next: nat, op: Operation): (Pending, nat, seq<nat>) {
    if op.Prepare? then
      (pending[Key(next, op.size) := Transfer(next, op.direction, op.path, op.size)], next + 1, [])
    else
      match Redeemed(pending, op)
      case Some(k) => (pending - {k}, next, [pending[k].id])
      case None => (pending, next, [])
  }

  /** The ids redeemed by a run of operations, in order. */
  ghost function RedeemedIds(pending: Pending, next: nat, ops: seq<Operation>): seq<nat>
    decreases |ops|
  {
    if ops == [] then [] else
      var (pending', next', redeemed) := Operated(pending, next, ops[0]);
      redeemed + RedeemedIds(pending', next', ops[1..])
  }

  /** The pending transfers are valid, and none of them has been redeemed. */
  ghost predicate Unspent(pending: Pending, next: nat, spent: set<nat>) {
    && ValidPending(pending, next)
    && (forall id :: id in spent ==> id < next)
    && (forall k :: k in pending ==> pending[k].id !in spent)
  }

  lemma PrepareKeepsUnspent(pending: Pending, next: nat, transfer: Transfer, spent: set<nat>)
    requires Unspent(pending, next, spent) && transfer.id == next <= U64_MAX && transfer.size <= U64_MAX
    ensures Unspent(pending[Key(next, transfer.size) := transfer], next + 1, spent + Elems([]))
  {
  }

  lemma TakeKeepsUnspent(pending: Pending, next: nat, k: seq<byte>, spent: set<nat>)
    requires Unspent(pending, next, spent) && k in pending
    ensures Unspent(pending - {k}, next, spent + Elems([pending[k].id]))
  {
  }

  lemma OperationKeepsUnspent(pending: Pending, next: nat, op: Operation, spent: set<nat>)
    requires Unspent(pending, next, spent) && next <= U64_MAX && (op.Prepare? ==> op.size <= U64_MAX)
    ensures var (pending', next', redeemed) := Operated(pending, next, op);
      && Unspent(pending', next', spent + Elems(redeemed)) && next' <= next + 1
      && NoDup(redeemed) && forall id :: id in redeemed ==> id !in spent
  {
    if op.Prepare? {
      PrepareKeepsUnspent(pending, next, Transfer(next, op.direction, op.path, op.size), spent);
    } else if k :| k in pending && Redeemed(pending, op) == Some(k) {
      TakeKeepsUnspent(pending, next, k, spent);
    }
  }

  /** Over any run, no transfer is redeemed twice. */
  lemma {:induction false} RedeemedAtMostOnce(pending: Pending, next: nat, ops: seq<Operation>, spent: set<nat>)
    requires Unspent(pending, next, spent) && next + |ops| <= U64_MAX
    requires forall op :: op in ops && op.Prepare? ==> op.size <= U64_MAX
    ensures NoDup(RedeemedIds(pending, next, ops))
    ensures forall id :: id in RedeemedIds(pending, next, ops) ==> id !in spent
    decreases |ops|
  {
    if ops != [] {
      var (pending', next', redeemed) := Operated(pending, next, ops[0]);
      OperationKeepsUnspent(pending, next, ops[0], spent);
      RedeemedAtMostOnce(pending', next', ops[1..], spent + Elems(redeemed));
      NoDupConcat(redeemed, RedeemedIds(pending', next', ops[1..]));
    }
  }
}
