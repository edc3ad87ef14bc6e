/** Reading a whole conversation page by page, newest page first. */
module HistoryPaging {
  import opened Collections
  import opened Numbers
  import opened Records
  import opened History

  lemma {:induction false} SelectAscending(messages: seq<Message>, q: Query)
    requires InOrder(messages)
    ensures InOrder(Select(messages, q))
  {
    if messages != [] {
      var rest := Select(messages[1..], q);
      SelectAscending(messages[1..], q);
      SelectIsExact(messages[1..], q);
      forall i | 0 <= i < |rest| ensures messages[0].timestamp < rest[i].timestamp {
        assert rest[i] in messages[1..];
      }
    }
  }

  /** The lists are kept in order, so sorting the rows leaves them as they are. */
  lemma {:induction false} SortIsIdentity(s: seq<Message>)
    requires InOrder(s)
    ensures SortByTimestamp(s) == s
  {
    if s != [] {
      SortIsIdentity(s[1..]);
      assert s == [s[0]] + s[1..];
    }
  }

  function UpTo(s: seq<Message>, end: nat): seq<Message> {
    if s == [] then [] else (if s[0].timestamp <= end then [s[0]] else []) + UpTo(s[1..], end)
  }

  function InConversation(conversation: nat, end: Option<nat>): Query {
    Query(conversation, None, end, None)
  }

  lemma {:induction false} SelectNarrower(messages: seq<Message>, conversation: nat, end: Option<nat>, end': nat)
    requires end.Some? ==> end' <= end.value
    ensures Select(messages, InConversation(conversation, Some(end')))
         == UpTo(Select(messages, InConversation(conversation, end)), end')
  {
    if messages != [] {
      var m, rest := messages[0], messages[1..];
      var wide := Select(rest, InConversation(conversation, end));
      SelectNarrower(rest, conversation, end, end');
      if Matches(InConversation(conversation, end), m) {
        assert ([m] + wide)[1..] == wide;
      } else {
        assert [] + wide == wide;
      }
    }
  }

  lemma {:induction false} UpToIsPrefix(s: seq<Message>, k: nat, end: nat)
    requires InOrder(s) && k < |s| && s[k].timestamp == end + 1
    ensures UpTo(s, end) == s[..k]
    decreases |s|
  {
    if k == 0 {
      UpToNothing(s, end);
    } else {
      UpToIsPrefix(s[1..], k - 1, end);
      assert s[..k] == [s[0]] + s[1..][..k - 1];
    }
  }

  lemma {:induction false} UpToNothing(s: seq<Message>, end: nat)
    requires forall i :: 0 <= i < |s| ==> s[i].timestamp > end
    ensures UpTo(s, end) == []
  {
    if s != [] { UpToNothing(s[1..], end); }
  }

  function Page(messages: seq<Message>, conversation: nat, end: Option<nat>, limit: nat): seq<Message> {
    HistoryRows(messages, conversation, None, end, Some(limit))
  }

  lemma PageIsEnd(messages: seq<Message>, conversation: nat, end: Option<nat>, limit: nat)
    requires InOrder(messages)
    ensures Page(messages, conversation, end, limit) ==
      LastOnes(Select(messages, InConversation(conversation, Above(end, 1))), limit)
  {
    SelectAscending(messages, InConversation(conversation, Above(end, 1)));
    SortIsIdentity(Select(messages, InConversation(conversation, Above(end, 1))));
  }

  lemma LastOnesSplit(s: seq<Message>, limit: nat)
    requires limit >= 1
    ensures var page := LastOnes(s, limit);
      && |page| <= |s| && page == s[|s| - |page|..] && (page == [] <==> s == [])
      && (page != [] ==> page[0] == s[|s| - |page|] && page[0] in s)
  {
  }

  /** `page` is the end of `s`. */
  ghost predicate IsEndOf(s: seq<Message>, page: seq<Message>) {
    |page| <= |s| && page == s[|s| - |page|..] && (page == [] <==> s == [])
  }

  lemma PageEnds(messages: seq<Message>, conversation: nat, end: Option<nat>, limit: nat)
    requires InOrder(messages) && limit >= 1
    ensures IsEndOf(Select(messages, InConversation(conversation, Above(end, 1))),
                    Page(messages, conversation, end, limit))
  {
    PageIsEnd(messages, conversation, end, limit);
    LastOnesSplit(Select(messages, InConversation(conversation, Above(end, 1))), limit);
  }

  /** A page is the end of the selected messages, and asking for what lies before its oldest message selects
      exactly the rest. */
  lemma PageSplits(messages: seq<Message>, conversation: nat, end: Option<nat>, limit: nat)
    requires InOrder(messages) && limit >= 1
    ensures var s := Select(messages, InConversation(conversation, Above(end, 1)));
      var page := Page(messages, conversation, end, limit);
      && IsEndOf(s, page)
      && (page != [] && page[0].timestamp > 0 ==>
            Select(messages, InConversation(conversation, Some(page[0].timestamp - 1))) == s[..|s| - |page|])
  {
    PageEnds(messages, conversation, end, limit);
    OlderRest(messages, conversation, Above(end, 1), Page(messages, conversation, end, limit));
  }

  lemma OlderRest(messages: seq<Message>, conversation: nat, end: Option<nat>, page: seq<Message>)
    requires InOrder(messages) && IsEndOf(Select(messages, InConversation(conversation, end)), page)
    ensures var s := Select(messages, InConversation(conversation, end));
      page != [] && page[0].timestamp > 0 ==>
        Select(messages, InConversation(conversation, Some(page[0].timestamp - 1))) == s[..|s| - |page|]
  {
    var s := Select(messages, InConversation(conversation, end));
    if page != [] && page[0].timestamp > 0 {
      RestBefore(messages, conversation, end, |s| - |page|);
    }
  }

  lemma RestBefore(messages: seq<Message>, conversation: nat, end: Option<nat>, k: nat)
    requires InOrder(messages) && k < |Select(messages, InConversation(conversation, end))|
    requires Select(messages, InConversation(conversation, end))[k].timestamp > 0
    ensures var s := Select(messages, InConversation(conversation, end));
      Select(messages, InConversation(conversation, Some(s[k].timestamp - 1))) == s[..k]
  {
    var s := Select(messages, InConversation(conversation, end));
    SelectIsExact(messages, InConversation(conversation, end));
    assert s[k] in s;
    SelectAscending(messages, InConversation(conversation, end));
    SelectNarrower(messages, conversation, end, s[k].timestamp - 1);
    UpToIsPrefix(s, k, s[k].timestamp - 1);
  }

  ghost predicate LateEnough(messages: seq<Message>, conversation: nat) {
    forall m :: m in messages && m.conversation == conversation ==> m.timestamp > 2
  }

  /** Everything collected by asking for `limit` messages again and again, each time before the oldest one
      received, until an empty page comes. */
  ghost function Collected(messages: seq<Message>, conversation: nat, end: Option<nat>, limit: nat): seq<Message>
    requires InOrder(messages) && limit >= 1 && LateEnough(messages, conversation)
    decreases |Select(messages, InConversation(conversation, Above(end, 1)))|
  {
    var page := Page(messages, conversation, end, limit);
    PageSplits(messages, conversation, end, limit);
    if page == [] then [] else
      PageIsSelected(messages, conversation, end, limit);
      Collected(messages, conversation, Some(page[0].timestamp - 1), limit) + page
  }

  lemma PageIsSelected(messages: seq<Message>, conversation: nat, end: Option<nat>, limit: nat)
    requires InOrder(messages) && limit >= 1 && LateEnough(messages, conversation)
    requires Page(messages, conversation, end, limit) != []
    ensures var oldest := Page(messages, conversation, end, limit)[0].timestamp;
      oldest > 2 && Above(Some(oldest - 1), 1) == Some(oldest - 1)
  {
    PageSplits(messages, conversation, end, limit);
    var s := Select(messages, InConversation(conversation, Above(end, 1)));
    var page := Page(messages, conversation, end, limit);
    SelectIsExact(messages, InConversation(conversation, Above(end, 1)));
    assert page[0] == s[|s| - |page|] && s[|s| - |page|] in s;
  }

  /** Paging backwards visits every message of the conversation exactly once, in order. */
  lemma {:induction false} PagingIsPartition(messages: seq<Message>, conversation: nat, end: Option<nat>, limit: nat)
    requires InOrder(messages) && limit >= 1 && LateEnough(messages, conversation)
    ensures Collected(messages, conversation, end, limit)
         == Select(messages, InConversation(conversation, Above(end, 1)))
    decreases |Select(messages, InConversation(conversation, Above(end, 1)))|
  {
    var s := Select(messages, InConversation(conversation, Above(end, 1)));
    var page := Page(messages, conversation, end, limit);
    PageSplits(messages, conversation, end, limit);
    CollectedStep(messages, conversation, end, limit, page);
    if page != [] {
      PageIsSelected(messages, conversation, end, limit);
      PagingIsPartition(messages, conversation, Some(page[0].timestamp - 1), limit);
      Rejoined(s, page);
    }
  }

  lemma CollectedStep(messages: seq<Message>, conversation: nat, end: Option<nat>, limit: nat, page: seq<Message>)
    requires InOrder(messages) && limit >= 1 && LateEnough(messages, conversation)
    requires page == Page(messages, conversation, end, limit)
    ensures page == [] ==> Collected(messages, conversation, end, limit) == []
    ensures page != [] ==> page[0].timestamp > 0
    ensures page != [] ==>
      Collected(messages, conversation, end, limit)
        == Collected(messages, conversation, Some(page[0].timestamp - 1), limit) + page
  {
    if page != [] { PageIsSelected(messages, conversation, end, limit); }
  }

  lemma Rejoined(s: seq<Message>, page: seq<Message>)
    requires IsEndOf(s, page)
    ensures s[..|s| - |page|] + page == s
  {
  }

  /** The page asked for after a page holds older messages only exactly when the oldest one received is
      above 2: a bound of 1 or 0 is taken for no bound, and the newest page comes again. */
  lemma NextPageIsOlder(messages: seq<Message>, conversation: nat, end: Option<nat>, limit: nat)
    requires InOrder(messages) && limit >= 1
    requires Page(messages, conversation, end, limit) != []
    requires Page(messages, conversation, end, limit)[0].timestamp > 0
    ensures var oldest := Page(messages, conversation, end, limit)[0].timestamp;
      var next := Page(messages, conversation, Some(oldest - 1), limit);
      (forall m :: m in next ==> m.timestamp < oldest) <==> oldest > 2
  {
    var page := Page(messages, conversation, end, limit);
    var oldest := page[0].timestamp;
    var next := Page(messages, conversation, Some(oldest - 1), limit);
    PageSplits(messages, conversation, end, limit);
    PageSplits(messages, conversation, Some(oldest - 1), limit);
    var s := Select(messages, InConversation(conversation, Above(Some(oldest - 1), 1)));
    if oldest > 2 {
      SelectIsExact(messages, InConversation(conversation, Some(oldest - 1)));
      assert forall m :: m in next ==> m in s;
    } else {
      RestartsAtNewest(messages, conversation, end, limit);
    }
  }

  lemma RestartsAtNewest(messages: seq<Message>, conversation: nat, end: Option<nat>, limit: nat)
    requires InOrder(messages) && limit >= 1
    requires Page(messages, conversation, end, limit) != []
    requires 0 < Page(messages, conversation, end, limit)[0].timestamp <= 2
    ensures var oldest := Page(messages, conversation, end, limit)[0].timestamp;
      var next := Page(messages, conversation, Some(oldest - 1), limit);
      next == Page(messages, conversation, None, limit) && exists m :: m in next && m.timestamp >= oldest
  {
    var page := Page(messages, conversation, end, limit);
    var oldest := page[0];
    PageEnds(messages, conversation, end, limit);
    SelectIsExact(messages, InConversation(conversation, Above(end, 1)));
    assert oldest in Select(messages, InConversation(conversation, Above(end, 1)));
    NewestIsLate(messages, conversation, limit, oldest);
  }

  lemma NewestIsLate(messages: seq<Message>, conversation: nat, limit: nat, m: Message)
    requires InOrder(messages) && limit >= 1 && m in messages && m.conversation == conversation
    ensures exists n :: n in Page(messages, conversation, None, limit) && n.timestamp >= m.timestamp
  {
    var all := Select(messages, InConversation(conversation, None));
    PageIsEnd(messages, conversation, None, limit);
    SelectAscending(messages, InConversation(conversation, None));
    SelectIsExact(messages, InConversation(conversation, None));
    assert m in all;
    LastIsNewest(all, limit, m);
  }

  lemma LastIsNewest(s: seq<Message>, limit: nat, m: Message)
    requires InOrder(s) && limit >= 1 && m in s
    ensures exists n :: n in LastOnes(s, limit) && n.timestamp >= m.timestamp
  {
    var newest := LastOnes(s, limit);
    var last := newest[|newest| - 1];
    assert last == s[|s| - 1] && last in newest;
    var i :| 0 <= i < |s| && s[i] == m;
    assert last.timestamp >= m.timestamp;
  }

  /** A message recorded by a new store at clock 0 comes again on every page asked for before it. */
  lemma RestartExample(m: Message)
    requires m.timestamp == Issue(1, 0).0
    ensures Page([m], m.conversation, None, 1) == [m]
    ensures Page([m], m.conversation, Some(m.timestamp - 1), 1) == [m]
  {
    var q := InConversation(m.conversation, None);
    assert [m][1..] == [];
    assert Select([m], q) == [m];
    SortIsIdentity([m]);
    PageIsEnd([m], m.conversation, None, 1);
    PageIsEnd([m], m.conversation, Some(m.timestamp - 1), 1);
  }

  // --- The counter's seed ---

  /** One above every stored timestamp, 1 when there is none. */
  function Seed(timestamps: seq<nat>): nat {
    if timestamps == [] then 1 else
      var highest := Highest(timestamps);
      if highest < U64_MAX then highest + 1 else U64_MAX
  }

  function Highest(timestamps: seq<nat>): (m: nat)
    requires timestamps != []
    ensures m in timestamps && forall t :: t in timestamps ==> t <= m
  {
    if |timestamps| == 1 then timestamps[0] else
      var m := Highest(timestamps[1..]);
      assert forall t :: t in timestamps ==> t == timestamps[0] || t in timestamps[1..];
      MaxOf(timestamps[0], m)
  }

  /** After loading, the next issued timestamp is above every stored one exactly when none has reached the
      largest number. */
  lemma SeedIsAbove(timestamps: seq<nat>, clock: nat)
    requires forall t :: t in timestamps ==> t <= U64_MAX
    requires clock <= U64_MAX
    ensures (forall t :: t in timestamps ==> t < Issue(Seed(timestamps), clock).0) <==> U64_MAX !in timestamps
    ensures timestamps == [] ==> Seed(timestamps) == 1
    ensures timestamps != [] && U64_MAX !in timestamps ==> Seed(timestamps) - 1 in timestamps
  {
    if timestamps != [] {
      var highest := Highest(timestamps);
    }
  }
}
