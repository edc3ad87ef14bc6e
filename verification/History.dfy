/** Conversation history: issuing timestamps, paging backwards and bounded deletion. */
module History {
  import opened Collections
  import opened Numbers
  import opened Records

  // --- Timestamps ---

  /** The timestamp issued at a clock reading, and the counter afterwards. */
  function Issue(next: nat, clock: nat): (nat, nat) {
    var timestamp := MaxOf(clock, next);
    (timestamp, if timestamp < U64_MAX then timestamp + 1 else U64_MAX)
  }

  function Issued(next: nat, clocks: seq<nat>): seq<nat>
    decreases |clocks|
  {
    if clocks == [] then [] else
      var (timestamp, next') := Issue(next, clocks[0]);
      [timestamp] + Issued(next', clocks[1..])
  }

  /** No timestamp but the last can reach the largest number. */
  ghost predicate WithinReach(next: nat, clocks: seq<nat>) {
    && (clocks != [] ==> next + |clocks| - 1 <= U64_MAX)
    && forall i :: 0 <= i < |clocks| ==> clocks[i] + |clocks| - 1 - i <= U64_MAX
  }

  /** Timestamps strictly increase, even when the clock goes back, exactly as long as the counter has room. */
  lemma {:induction false} IssuedIncrease(next: nat, clocks: seq<nat>)
    requires next <= U64_MAX && forall c :: c in clocks ==> c <= U64_MAX
    ensures |Issued(next, clocks)| == |clocks|
    ensures forall i :: 0 <= i < |clocks| ==> next <= Issued(next, clocks)[i] <= U64_MAX
    ensures IsAscending(Issued(next, clocks)) <==> WithinReach(next, clocks)
    decreases |clocks|
  {
    if clocks != [] {
      var (timestamp, next') := Issue(next, clocks[0]);
      var later := Issued(next', clocks[1..]);
      assert clocks[0] in clocks && forall c :: c in clocks[1..] ==> c in clocks;
      IssuedIncrease(next', clocks[1..]);
      FirstOfAscending(timestamp, later);
      ReachStep(next, clocks);
    }
  }

  lemma FirstOfAscending(first: nat, later: seq<nat>)
    ensures IsAscending([first] + later) <==> IsAscending(later) && (later != [] ==> first < later[0])
  {
    var all := [first] + later;
    if IsAscending(all) {
      forall i, j | 0 <= i < j < |later| ensures later[i] < later[j] {
        assert all[i + 1] < all[j + 1];
      }
      if later != [] { assert all[0] < all[1]; }
    }
  }

  lemma ReachStep(next: nat, clocks: seq<nat>)
    requires clocks != [] && next <= U64_MAX && forall c :: c in clocks ==> c <= U64_MAX
    ensures var (timestamp, next') := Issue(next, clocks[0]);
      WithinReach(next, clocks) <==> WithinReach(next', clocks[1..]) && (|clocks| > 1 ==> timestamp < U64_MAX)
  {
    var rest := clocks[1..];
    assert clocks[0] in clocks;
    assert forall i :: 0 <= i < |rest| ==> rest[i] == clocks[i + 1];
    if forall i :: 0 <= i < |rest| ==> rest[i] + |rest| - 1 - i <= U64_MAX {
      forall i | 0 < i < |clocks| ensures clocks[i] + |clocks| - 1 - i <= U64_MAX {
        assert clocks[i] == rest[i - 1];
      }
    }
  }

  /** At the largest number the same timestamp is issued again. */
  lemma SaturatedCounter(clock: nat)
    requires clock <= U64_MAX
    ensures Issued(U64_MAX, [clock, clock]) == [U64_MAX, U64_MAX]
    ensures !IsAscending(Issued(U64_MAX, [clock, clock]))
  {
    var (timestamp, next) := Issue(U64_MAX, clock);
    assert [clock, clock][1..] == [clock] && [clock][1..] == [];
    assert Issued(next, [clock]) == [U64_MAX];
    var issued := Issued(U64_MAX, [clock, clock]);
    assert issued == [U64_MAX] + [U64_MAX] && issued[0] == issued[1];
  }

  predicate InOrder(messages: seq<Message>) {
    forall i, j :: 0 <= i < j < |messages| ==> messages[i].timestamp < messages[j].timestamp
  }

  predicate AllBelow(messages: seq<Message>, next: nat) {
    forall m :: m in messages ==> m.timestamp < next
  }

  predicate ValidLists(next: nat, lists: map<nat, seq<Message>>) {
    forall s :: s in lists ==> InOrder(lists[s]) && AllBelow(lists[s], next)
  }

  /** Every stored list is in timestamp order, and every stored timestamp lies below the counter. */
  predicate ValidStore(next: nat, conversations: map<nat, seq<Message>>, private: map<nat, seq<Message>>) {
    ValidLists(next, conversations) && ValidLists(next, private)
  }

  /** The counter only grows, so an appended message keeps the lists valid exactly when it is below it. */
  lemma AppendedLists(lists: map<nat, seq<Message>>, server: nat, m: Message, next: nat, next': nat)
    requires ValidLists(next, lists) && next <= m.timestamp && next <= next'
    ensures ValidLists(next', lists[server := ListOf(lists, server) + [m]]) <==> m.timestamp < next'
    ensures ValidLists(next', lists)
  {
    var lists' := lists[server := ListOf(lists, server) + [m]];
    AppendedOrder(ListOf(lists, server), m, next, next');
    assert server in lists' && lists'[server] == ListOf(lists, server) + [m];
  }

  lemma AppendedOrder(messages: seq<Message>, m: Message, next: nat, next': nat)
    requires InOrder(messages) && AllBelow(messages, next) && next <= m.timestamp && next <= next'
    ensures InOrder(messages + [m]) && (AllBelow(messages + [m], next') <==> m.timestamp < next')
  {
    assert forall x :: x in messages + [m] <==> x in messages || x == m;
    forall i | 0 <= i < |messages| ensures messages[i].timestamp < m.timestamp {
      assert messages[i] in messages;
    }
  }

  function ListOf(lists: map<nat, seq<Message>>, server: nat): seq<Message> {
    if server in lists then lists[server] else []
  }

  // --- Queries ---

  datatype Query = Query(conversation: nat, begin: Option<nat>, end: Option<nat>, sender: Option<nat>)

  predicate Matches(q: Query, m: Message) {
    && m.conversation == q.conversation
    && (q.begin.Some? ==> m.timestamp >= q.begin.value)
    && (q.end.Some? ==> m.timestamp <= q.end.value)
    && (q.sender.Some? ==> m.sender == q.sender.value)
  }

  function Select(messages: seq<Message>, q: Query): seq<Message> {
    if messages == [] then []
    else (if Matches(q, messages[0]) then [messages[0]] else []) + Select(messages[1..], q)
  }

  lemma {:induction false} SelectIsExact(messages: seq<Message>, q: Query)
    ensures forall m :: m in Select(messages, q) <==> m in messages && Matches(q, m)
  {
    if messages != [] {
      SelectIsExact(messages[1..], q);
      assert forall m :: m in messages <==> m == messages[0] || m in messages[1..];
    }
  }

  /** Over the messages' fields: which messages a page is taken from, and which a deletion is about. A bound of 0
      is no bound, and neither is an upper bound of 1 for a page. */
  lemma SelectedByFields(messages: seq<Message>, conversation: nat, begin: Option<nat>, end: Option<nat>,
                         sender: Option<nat>, m: Message)
    requires m in messages
    ensures m in Select(messages, Query(conversation, Above(begin, 0), Above(end, 0), sender)) <==>
      && m.conversation == conversation
      && (begin.None? || begin.value <= m.timestamp)
      && (end.None? || end.value == 0 || m.timestamp <= end.value)
      && (sender.None? || m.sender == sender.value)
    ensures m in HistoryRows(messages, conversation, begin, end, None) <==>
      && m.conversation == conversation
      && (begin.None? || begin.value <= m.timestamp)
      && (end.None? || end.value <= 1 || m.timestamp <= end.value)
  {
    SelectIsExact(messages, Query(conversation, Above(begin, 0), Above(end, 0), sender));
    var q := Query(conversation, Above(begin, 0), Above(end, 1), None);
    SelectIsExact(messages, q);
    SortKeeps(Select(messages, q), m);
  }

  lemma {:induction false} SortKeeps(s: seq<Message>, m: Message)
    ensures m in SortByTimestamp(s) <==> m in s
  {
    if s != [] {
      SortKeeps(s[1..], m);
      InsertKeeps(s[0], SortByTimestamp(s[1..]), m);
      assert m in s <==> m == s[0] || m in s[1..];
    }
  }

  lemma {:induction false} InsertKeeps(x: Message, s: seq<Message>, m: Message)
    ensures m in InsertByTimestamp(x, s) <==> m == x || m in s
  {
    if s != [] && x.timestamp > s[0].timestamp {
      InsertKeeps(x, s[1..], m);
      assert m in s <==> m == s[0] || m in s[1..];
    }
  }

  /** A bound is ignored when it is not above `floor`. */
  function Above(bound: Option<nat>, floor: nat): Option<nat> {
    if bound.Some? && bound.value > floor then bound else None
  }

  function InsertByTimestamp(m: Message, s: seq<Message>): seq<Message> {
    if s == [] || m.timestamp <= s[0].timestamp then [m] + s else [s[0]] + InsertByTimestamp(m, s[1..])
  }

  /** Stable sorting by timestamp. */
  function SortByTimestamp(s: seq<Message>): seq<Message> {
    if s == [] then [] else InsertByTimestamp(s[0], SortByTimestamp(s[1..]))
  }

  function LastOnes(s: seq<Message>, limit: nat): seq<Message> {
    if |s| > limit then s[|s| - limit..] else s
  }

  /** The newest `limit` messages of a conversation between the bounds, oldest first. */
  function HistoryRows(messages: seq<Message>, conversation: nat, begin: Option<nat>, end: Option<nat>,
                       limit: Option<nat>): seq<Message>
  {
    var rows := SortByTimestamp(Select(messages, Query(conversation, Above(begin, 0), Above(end, 1), None)));
    if limit.Some? then LastOnes(rows, limit.value) else rows
  }

  // --- Deletion ---

  /** What is left when the first `budget` matches are removed. */
  function Retained(messages: seq<Message>, q: Query, budget: nat): seq<Message> {
    if messages == [] then []
    else if Matches(q, messages[0]) && budget > 0 then Retained(messages[1..], q, budget - 1)
    else [messages[0]] + Retained(messages[1..], q, budget)
  }

  class ConversationStore {
    var next: nat
    var conversations: map<nat, seq<Message>>
    var private: map<nat, seq<Message>>

    constructor ()
      ensures Valid() && next == 1 && conversations == map[] && private == map[]
    {
      next, conversations, private := 1, map[], map[];
    }

    predicate Valid()
      reads this
    {
      next <= U64_MAX && ValidStore(next, conversations, private)
    }

    method NextTimestamp(clock: nat) returns (timestamp: nat)
      modifies this`next
      ensures (timestamp, next) == Issue(old(next), clock)
    {
      timestamp := MaxOf(clock, next);
      next := if timestamp < U64_MAX then timestamp + 1 else U64_MAX;
    }

    /** Channel messages (mode 2) and server messages (mode 3, conversation 0) are stored; other modes only
        draw a timestamp. The lists stay in order below the counter exactly until the counter saturates. */
    method RecordTextMessage(server: nat, mode: nat, channel: Option<nat>, sender: nat, text: string, clock: nat)
      returns (timestamp: nat)
      requires Valid() && clock <= U64_MAX
      modifies this
      ensures (timestamp, next) == Issue(old(next), clock) && private == old(private)
      ensures var conversation := if mode == 2 then channel else if mode == 3 then Some(0) else None;
        && (Valid() <==> conversation.None? || MaxOf(clock, old(next)) < U64_MAX)
        && conversations == if conversation.None? then old(conversations)
          else old(conversations)[server := ListOf(old(conversations), server)
                                            + [Message(conversation.value, timestamp, sender, text)]]
    {
      timestamp := NextTimestamp(clock);
      var conversation := if mode == 2 then channel else if mode == 3 then Some(0) else None;
      if conversation.None? {
        return;
      }
      var list := if server in conversations then conversations[server] else [];
      var message := Message(conversation.value, timestamp, sender, text);
      conversations := conversations[server := list + [message]];
      AppendedLists(old(conversations), server, message, old(next), next);
    }

    method RecordPrivateMessage(server: nat, target: nat, sender: nat, text: string, clock: nat)
      returns (timestamp: nat)
      requires Valid() && clock <= U64_MAX
      modifies this
      ensures (timestamp, next) == Issue(old(next), clock) && conversations == old(conversations)
      ensures Valid() <==> MaxOf(clock, old(next)) < U64_MAX
      ensures private ==
        old(private)[server := ListOf(old(private), server) + [Message(target, timestamp, sender, text)]]
    {
      timestamp := NextTimestamp(clock);
      var list := if server in private then private[server] else [];
      var message := Message(target, timestamp, sender, text);
      private := private[server := list + [message]];
      AppendedLists(old(private), server, message, old(next), next);
    }

    method DeleteConversationMessages(server: nat, conversation: nat, begin: Option<nat>, end: Option<nat>,
                                      limit: Option<nat>, sender: Option<nat>) returns (deleted: nat)
      requires Valid()
      modifies this`conversations
      ensures Valid()
      ensures server !in old(conversations) ==> deleted == 0 && conversations == old(conversations)
      ensures server in old(conversations) ==>
        var q := Query(conversation, Above(begin, 0), Above(end, 0), sender);
        var matching := |Select(old(conversations)[server], q)|;
        && deleted == (if limit.Some? then MinOf(limit.value, matching) else matching)
        && conversations == old(conversations)[server := Retained(old(conversations)[server], q, deleted)]
    {
      if server !in conversations {
        return 0;
      }
      var q := Query(conversation, Above(begin, 0), Above(end, 0), sender);
      var messages := conversations[server];
      var budget := if limit.Some? then limit.value else |messages|;
      SelectShorter(messages, q);
      var kept;
      kept, deleted := RetainUnmatched(messages, q, budget);
      RetainedBudget(messages, q, budget);
      RetainedAscending(messages, q, budget);
      conversations := conversations[server := kept];
    }
  }

  /** The filtering pass with its counter of deleted messages. */
  method RetainUnmatched(messages: seq<Message>, q: Query, budget: nat) returns (kept: seq<Message>, deleted: nat)
    ensures kept == Retained(messages, q, budget)
    ensures deleted == MinOf(budget, |Select(messages, q)|)
  {
    kept, deleted := [], 0;
    assert messages[0..] == messages;
    for i := 0 to |messages|
      invariant deleted <= budget
      invariant kept + Retained(messages[i..], q, budget - deleted) == Retained(messages, q, budget)
      invariant deleted + MinOf(budget - deleted, |Select(messages[i..], q)|) == MinOf(budget, |Select(messages, q)|)
    {
      RetainedStep(messages, q, i, budget - deleted, kept);
      if Matches(q, messages[i]) && deleted < budget {
        deleted := deleted + 1;
      } else {
        kept := kept + [messages[i]];
      }
    }
    assert messages[|messages|..] == [];
    assert kept + [] == kept;
  }

  lemma RetainedStep(messages: seq<Message>, q: Query, i: nat, budget: nat, kept: seq<Message>)
    requires i < |messages|
    ensures |Select(messages[i..], q)| == |Select(messages[i + 1..], q)| + if Matches(q, messages[i]) then 1 else 0
    ensures kept + Retained(messages[i..], q, budget) ==
      if Matches(q, messages[i]) && budget > 0 then kept + Retained(messages[i + 1..], q, budget - 1)
      else (kept + [messages[i]]) + Retained(messages[i + 1..], q, budget)
  {
    assert messages[i..][1..] == messages[i + 1..];
    ConcatAssociates(kept, [messages[i]], Retained(messages[i + 1..], q, budget));
  }

  lemma {:induction false} SelectShorter(messages: seq<Message>, q: Query)
    ensures |Select(messages, q)| <= |messages|
  {
    if messages != [] { SelectShorter(messages[1..], q); }
  }

  /** A budget beyond the number of matches changes nothing. */
  lemma {:induction false} RetainedBudget(messages: seq<Message>, q: Query, budget: nat)
    ensures Retained(messages, q, budget) == Retained(messages, q, MinOf(budget, |Select(messages, q)|))
  {
    if messages != [] {
      RetainedBudget(messages[1..], q, if Matches(q, messages[0]) && budget > 0 then budget - 1 else budget);
    }
  }

  lemma {:induction false} RetainedAscending(messages: seq<Message>, q: Query, budget: nat)
    ensures forall m :: m in Retained(messages, q, budget) ==> m in messages
    ensures InOrder(messages) ==> InOrder(Retained(messages, q, budget))
  {
    if messages != [] {
      var budget' := if Matches(q, messages[0]) && budget > 0 then budget - 1 else budget;
      var rest := Retained(messages[1..], q, budget');
      RetainedAscending(messages[1..], q, budget');
      assert forall m :: m in messages[1..] ==> m in messages;
      if InOrder(messages) {
        assert InOrder(messages[1..]);
        forall i | 0 <= i < |rest| ensures messages[0].timestamp < rest[i].timestamp {
          assert rest[i] in messages[1..];
        }
      }
    }
  }

  /** Everything a query does not match. */
  function Unmatched(messages: seq<Message>, q: Query): seq<Message> {
    if messages == [] then []
    else (if Matches(q, messages[0]) then [] else [messages[0]]) + Unmatched(messages[1..], q)
  }

  ghost predicate FirstDeleted(messages: seq<Message>, q: Query, budget: nat) {
    var matching, kept := Select(messages, q), Retained(messages, q, budget);
    && Select(kept, q) == matching[MinOf(budget, |matching|)..]
    && Unmatched(kept, q) == Unmatched(messages, q)
  }

  lemma DropsMatch(messages: seq<Message>, q: Query, budget: nat)
    requires messages != [] && Matches(q, messages[0]) && budget > 0
    requires FirstDeleted(messages[1..], q, budget - 1)
    ensures FirstDeleted(messages, q, budget)
  {
    var tail := Select(messages[1..], q);
    SliceAfterFirst(messages[0], tail, MinOf(budget - 1, |tail|));
  }

  lemma KeepsMatch(messages: seq<Message>, q: Query)
    requires messages != [] && Matches(q, messages[0])
    requires FirstDeleted(messages[1..], q, 0)
    ensures FirstDeleted(messages, q, 0)
  {
    KeepsFirst(messages[0], messages[1..], q, 0);
    SliceWhole(Select(messages, q));
    SliceWhole(Select(messages[1..], q));
  }

  lemma KeepsOther(messages: seq<Message>, q: Query, budget: nat)
    requires messages != [] && !Matches(q, messages[0])
    requires FirstDeleted(messages[1..], q, budget)
    ensures FirstDeleted(messages, q, budget)
  {
    KeepsFirst(messages[0], messages[1..], q, budget);
  }

  lemma {:induction false} DeletionStep(messages: seq<Message>, q: Query, budget: nat)
    ensures FirstDeleted(messages, q, budget)
  {
    if messages == [] {
    } else if !Matches(q, messages[0]) {
      DeletionStep(messages[1..], q, budget);
      KeepsOther(messages, q, budget);
    } else if budget > 0 {
      DeletionStep(messages[1..], q, budget - 1);
      DropsMatch(messages, q, budget);
    } else {
      DeletionStep(messages[1..], q, 0);
      KeepsMatch(messages, q);
    }
  }

  /** Bounded deletion removes exactly the first matches, in order, and nothing else. */
  lemma {:induction false} DeletesFirstMatches(messages: seq<Message>, q: Query, budget: nat)
    ensures var matching := Select(messages, q);
      Select(Retained(messages, q, budget), q) == matching[MinOf(budget, |matching|)..]
    ensures Unmatched(Retained(messages, q, budget), q) == Unmatched(messages, q)
  {
    DeletionStep(messages, q, budget);
  }

  lemma SliceAfterFirst(m: Message, tail: seq<Message>, n: nat)
    requires n <= |tail|
    ensures ([m] + tail)[n + 1..] == tail[n..]
  {
  }

  lemma SliceWhole(s: seq<Message>)
    ensures s[0..] == s
  {
  }

  lemma KeepsFirst(m: Message, rest: seq<Message>, q: Query, budget: nat)
    ensures var kept := [m] + Retained(rest, q, budget);
      && Select(kept, q) == (if Matches(q, m) then [m] else []) + Select(Retained(rest, q, budget), q)
      && Unmatched(kept, q) == (if Matches(q, m) then [] else [m]) + Unmatched(Retained(rest, q, budget), q)
  {
    var kept := [m] + Retained(rest, q, budget);
    assert kept[1..] == Retained(rest, q, budget);
  }
}
