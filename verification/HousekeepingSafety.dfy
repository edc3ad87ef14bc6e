/** What the temporary-channel pass keeps, and where repeating it ends. */
module HousekeepingSafety {
  import opened Collections
  import opened ChannelOrder
  import opened ChannelForest
  import opened ChannelRows
  import opened FamilyCounts
  import opened Records
  import opened Housekeeping

  ghost predicate ChannelExists(channels: map<nat, seq<Channel>>, server: nat, id: nat) {
    server in channels && id in Ids(channels[server])
  }

  ghost predicate ExistsSomewhere(channels: map<nat, seq<Channel>>, id: nat) {
    exists server :: ChannelExists(channels, server, id)
  }

  ghost predicate AllForests(channels: map<nat, seq<Channel>>) {
    forall server :: server in channels ==> Forest(channels[server])
  }

  ghost predicate MessagesPlaced(channels: map<nat, seq<Channel>>, server: nat, messages: seq<Message>) {
    forall m :: m in messages ==> m.conversation == 0 || ChannelExists(channels, server, m.conversation)
  }

  /** Every server holds a forest, and everything that names a channel names an existing one. */
  ghost predicate Valid(w: World) {
    && AllForests(w.channels)
    && (forall k :: k in w.clients ==> ChannelExists(w.channels, w.clients[k].server, w.clients[k].channel))
    && (forall a :: a in w.assignments ==> ExistsSomewhere(w.channels, a.channel))
    && (forall t :: t in w.targets ==> ExistsSomewhere(w.channels, t.channel))
    && (forall server :: server in w.messages ==> MessagesPlaced(w.channels, server, w.messages[server]))
  }

  // --- Removing a leaf keeps the forest ---

  lemma {:induction false} SameShapeParent(a: seq<Channel>, b: seq<Channel>, id: nat)
    requires |a| == |b| && forall i :: 0 <= i < |a| ==> a[i].id == b[i].id && a[i].parent == b[i].parent
    ensures Parent(a, id) == Parent(b, id)
  {
    if a != [] { SameShapeParent(a[1..], b[1..], id); }
  }

  lemma {:induction false} SameShapeUp(a: seq<Channel>, b: seq<Channel>, id: nat, n: nat)
    requires |a| == |b| && forall i :: 0 <= i < |a| ==> a[i].id == b[i].id && a[i].parent == b[i].parent
    ensures Up(a, id, n) == Up(b, id, n)
    decreases n
  {
    if n > 0 && id != 0 {
      SameShapeParent(a, b, id);
      SameShapeUp(a, b, Parent(a, id), n - 1);
    }
  }

  lemma RelinkKeepsForest(channels: seq<Channel>, parent: nat, ids: seq<nat>)
    requires Forest(channels)
    ensures Forest(Relinked(channels, parent, ids, 0))
  {
    var result := Relinked(channels, parent, ids, 0);
    SameShapeIds(channels, result, parent);
    forall c | c in result
      ensures c.id != 0 && (c.parent == 0 || c.parent in Ids(result)) && ReachesRoot(result, c.id)
    {
      var i :| 0 <= i < |result| && result[i] == c;
      var d := channels[i];
      var n: nat :| Up(channels, d.id, n) == 0;
      SameShapeUp(channels, result, d.id, n);
    }
  }

  lemma {:induction false} UpWithoutLeaf(channels: seq<Channel>, i: nat, id: nat, n: nat)
    requires UniqueIds(channels) && NonZeroIds(channels) && i < |channels|
    requires Children(channels, channels[i].id) == {} && id != channels[i].id
    ensures Up(Without(channels, i), id, n) == Up(channels, id, n)
    decreases n
  {
    var rest := Without(channels, i);
    WithoutMembers(channels, i);
    if n > 0 && id != 0 {
      if id in Ids(channels) {
        var c :| c in channels && c.id == id;
        ParentOfMember(channels, c);
        ParentOfMember(rest, c);
        assert c.id in Children(channels, c.parent);
      } else {
        ParentOfMissing(channels, id);
        ParentOfMissing(rest, id);
        assert channels[i] in channels;
      }
      UpWithoutLeaf(channels, i, Parent(channels, id), n - 1);
    }
  }

  lemma LeafRemovalKeepsForest(channels: seq<Channel>, i: nat)
    requires Forest(channels) && i < |channels| && Children(channels, channels[i].id) == {}
    ensures Forest(RemovedAndRelinked(channels, i))
  {
    var rest := Without(channels, i);
    WithoutMembers(channels, i);
    forall c | c in rest
      ensures c.id != 0 && (c.parent == 0 || c.parent in Ids(rest)) && ReachesRoot(rest, c.id)
    {
      var n: nat :| Up(channels, c.id, n) == 0;
      UpWithoutLeaf(channels, i, c.id, n);
      assert c.id in Children(channels, c.parent);
    }
    RelinkKeepsForest(rest, channels[i].parent, SiblingOrder(rest, channels[i].parent, None));
  }

  // --- One cleanup ---

  /** The identity of a channel: everything relinking does not touch. */
  function Shape(channels: seq<Channel>): set<(nat, nat, ChannelKind)> {
    set c | c in channels :: (c.id, c.parent, c.kind)
  }

  lemma RemovedShape(channels: seq<Channel>, i: nat)
    requires UniqueIds(channels) && i < |channels|
    ensures Shape(RemovedAndRelinked(channels, i)) ==
      Shape(channels) - {(channels[i].id, channels[i].parent, channels[i].kind)}
    ensures Ids(RemovedAndRelinked(channels, i)) == Ids(channels) - {channels[i].id}
  {
    var rest := Without(channels, i);
    var result := RemovedAndRelinked(channels, i);
    WithoutMembers(channels, i);
    SameShapeIds(rest, result, 0);
    ShapeWithin(rest, result);
    ShapeWithin(result, rest);
    WithoutShape(channels, i);
  }

  lemma ShapeWithin(a: seq<Channel>, b: seq<Channel>)
    requires |a| == |b|
    requires forall i :: 0 <= i < |a| ==> a[i].id == b[i].id && a[i].parent == b[i].parent && a[i].kind == b[i].kind
    ensures Shape(a) <= Shape(b)
  {
    forall s | s in Shape(a) ensures s in Shape(b) {
      var c :| c in a && s == (c.id, c.parent, c.kind);
      var k :| 0 <= k < |a| && a[k] == c;
      assert b[k] in b;
    }
  }

  lemma WithoutShape(channels: seq<Channel>, i: nat)
    requires UniqueIds(channels) && i < |channels|
    ensures Shape(Without(channels, i)) == Shape(channels) - {(channels[i].id, channels[i].parent, channels[i].kind)}
  {
    WithoutMembers(channels, i);
    forall s | s in Shape(channels) && s != (channels[i].id, channels[i].parent, channels[i].kind)
      ensures s in Shape(Without(channels, i))
    {
      var c :| c in channels && s == (c.id, c.parent, c.kind);
      var k :| 0 <= k < |channels| && channels[k] == c;
      assert k != i;
      assert c in Without(channels, i);
    }
  }

  /** `after` has lost nothing but bots and temporary channels. */
  ghost predicate OnlyTemporaryLoss(before: World, after: World) {
    && after.channels.Keys == before.channels.Keys
    && (forall s :: s in before.channels ==> Shape(after.channels[s]) <= Shape(before.channels[s]))
    && (forall s, c :: s in before.channels && c in Shape(before.channels[s]) && c !in Shape(after.channels[s])
          ==> c.2 == Temporary)
    && (forall k :: k in after.clients ==> k in before.clients && after.clients[k] == before.clients[k])
    && (forall k :: k in before.clients && k !in after.clients ==> before.clients[k].exactType == MUSIC_BOT)
  }

  function Slots(w: World): set<(nat, nat)> {
    set s, id | s in w.channels && id in Ids(w.channels[s]) :: (s, id)
  }

  function Size(w: World): nat {
    |Slots(w)| + |w.clients.Keys|
  }

  lemma SubsetSize<T>(a: set<T>, b: set<T>)
    requires a <= b
    ensures |a| <= |b|
    ensures |a| == |b| ==> a == b
  {
    assert b == a + (b - a);
    assert |b| == |a| + |b - a|;
  }

  lemma EvictionSize(w: World, server: nat, channel: nat, w1: World)
    requires w1 == w.(clients := w.clients - Evicted(w, server, channel))
    ensures Size(w1) <= Size(w) && (Size(w1) == Size(w) ==> w1 == w)
  {
    var gone := Evicted(w, server, channel);
    assert w1.clients.Keys == w.clients.Keys - gone && gone <= w.clients.Keys;
    assert Slots(w1) == Slots(w);
    SubsetSize(w1.clients.Keys, w.clients.Keys);
    if |w1.clients.Keys| == |w.clients.Keys| {
      assert gone == {};
      assert w1.clients == w.clients;
    }
  }

  lemma EvictionStep(w: World, server: nat, channel: nat, w1: World)
    requires Valid(w) && w1 == w.(clients := w.clients - Evicted(w, server, channel))
    ensures Valid(w1) && OnlyTemporaryLoss(w, w1)
    ensures Size(w1) <= Size(w) && (Size(w1) == Size(w) ==> w1 == w)
  {
    EvictionSize(w, server, channel, w1);
  }

  ghost predicate OneFewer(before: map<nat, seq<Channel>>, after: map<nat, seq<Channel>>, server: nat, id: nat) {
    forall s, x :: ChannelExists(after, s, x) <==> ChannelExists(before, s, x) && !(s == server && x == id)
  }

  lemma StillSomewhere(before: map<nat, seq<Channel>>, after: map<nat, seq<Channel>>, server: nat, id: nat, x: nat)
    requires OneFewer(before, after, server, id) && ExistsSomewhere(before, x) && x != id
    ensures ExistsSomewhere(after, x)
  {
    var s :| ChannelExists(before, s, x);
    assert ChannelExists(after, s, x);
  }

  lemma RemovalReferences(w: World, server: nat, i: nat, w1: World)
    requires Valid(w) && server in w.channels && i < |w.channels[server]|
    requires Deserted(w, server, w.channels[server][i].id) && w1 == WithoutChannel(w, server, i)
    requires OneFewer(w.channels, w1.channels, server, w.channels[server][i].id)
    ensures forall k :: k in w1.clients ==> ChannelExists(w1.channels, w1.clients[k].server, w1.clients[k].channel)
    ensures forall a :: a in w1.assignments ==> ExistsSomewhere(w1.channels, a.channel)
    ensures forall t :: t in w1.targets ==> ExistsSomewhere(w1.channels, t.channel)
    ensures forall s :: s in w1.messages ==> MessagesPlaced(w1.channels, s, w1.messages[s])
  {
    var id := w.channels[server][i].id;
    forall k | k in w1.clients ensures ChannelExists(w1.channels, w1.clients[k].server, w1.clients[k].channel) {
      assert k !in ClientsIn(w.clients, server, id);
    }
    forall a | a in w1.assignments ensures ExistsSomewhere(w1.channels, a.channel) {
      StillSomewhere(w.channels, w1.channels, server, id, a.channel);
    }
    forall t | t in w1.targets ensures ExistsSomewhere(w1.channels, t.channel) {
      StillSomewhere(w.channels, w1.channels, server, id, t.channel);
    }
    forall s | s in w1.messages ensures MessagesPlaced(w1.channels, s, w1.messages[s]) {
      assert MessagesPlaced(w.channels, s, w.messages[s]);
    }
  }

  lemma RemovalOneFewer(w: World, server: nat, i: nat, w1: World)
    requires server in w.channels && UniqueIds(w.channels[server]) && i < |w.channels[server]|
    requires w1 == WithoutChannel(w, server, i)
    ensures OneFewer(w.channels, w1.channels, server, w.channels[server][i].id)
  {
    RemovedShape(w.channels[server], i);
  }

  lemma InSlots(w: World)
    ensures forall s: nat, x: nat :: (s, x) in Slots(w) <==> ChannelExists(w.channels, s, x)
  {
  }

  lemma RemovalSize(w: World, server: nat, i: nat, w1: World)
    requires server in w.channels && UniqueIds(w.channels[server]) && i < |w.channels[server]|
    requires w1 == WithoutChannel(w, server, i)
    ensures Size(w1) < Size(w)
  {
    var slot := (server, w.channels[server][i].id);
    assert w.channels[server][i] in w.channels[server];
    assert ChannelExists(w.channels, slot.0, slot.1);
    RemovalOneFewer(w, server, i, w1);
    InSlots(w);
    InSlots(w1);
    assert slot in Slots(w) && slot !in Slots(w1);
    assert Slots(w1) <= Slots(w) by {
      forall p | p in Slots(w1) ensures p in Slots(w) {
        assert ChannelExists(w1.channels, p.0, p.1);
      }
    }
    SubsetSize(Slots(w1), Slots(w));
  }

  lemma RemovalStep(w: World, server: nat, i: nat, w1: World)
    requires Valid(w) && server in w.channels && i < |w.channels[server]|
    requires Deserted(w, server, w.channels[server][i].id) && w.channels[server][i].kind == Temporary
    requires w1 == WithoutChannel(w, server, i)
    ensures Valid(w1) && OnlyTemporaryLoss(w, w1) && Size(w1) < Size(w)
  {
    assert AllForests(w1.channels) by {
      LeafRemovalKeepsForest(w.channels[server], i);
    }
    RemovalLoss(w, server, i, w1);
    RemovalSize(w, server, i, w1);
    RemovalOneFewer(w, server, i, w1);
    RemovalReferences(w, server, i, w1);
  }

  lemma RemovalLoss(w: World, server: nat, i: nat, w1: World)
    requires server in w.channels && UniqueIds(w.channels[server]) && i < |w.channels[server]|
    requires w.channels[server][i].kind == Temporary && w1 == WithoutChannel(w, server, i)
    ensures OnlyTemporaryLoss(w, w1)
  {
    RemovedShape(w.channels[server], i);
  }

  /** One cleanup keeps every reference valid, loses only bots and temporary channels, and shrinks the
      store whenever it changes it. */
  lemma CleanupStep(w: World, server: nat, channel: nat)
    requires Valid(w)
    ensures Valid(Cleaned(w, server, channel))
    ensures OnlyTemporaryLoss(w, Cleaned(w, server, channel))
    ensures Size(Cleaned(w, server, channel)) <= Size(w)
    ensures Size(Cleaned(w, server, channel)) == Size(w) ==> Cleaned(w, server, channel) == w
  {
    if IsTemporary(w, server, channel) {
      var w1 := w.(clients := w.clients - Evicted(w, server, channel));
      EvictionStep(w, server, channel, w1);
      if Deserted(w1, server, channel) {
        var i := IndexOfId(w.channels[server], channel).value;
        var c := FindById(w.channels[server], channel).value;
        assert c == w.channels[server][i];
        RemovalStep(w1, server, i, Cleaned(w, server, channel));
      }
    }
  }

  // --- The whole pass ---

  /** Keeping the pass's promises over any sequence of cleanups. */
  lemma {:induction false} CleanAllStep(w: World, candidates: seq<(nat, nat)>)
    requires Valid(w)
    ensures Valid(CleanedAll(w, candidates)) && OnlyTemporaryLoss(w, CleanedAll(w, candidates))
    ensures Size(CleanedAll(w, candidates)) <= Size(w)
    ensures Size(CleanedAll(w, candidates)) == Size(w) ==> CleanedAll(w, candidates) == w
    decreases |candidates|
  {
    if candidates != [] {
      var w1 := Cleaned(w, candidates[0].0, candidates[0].1);
      CleanupStep(w, candidates[0].0, candidates[0].1);
      CleanAllStep(w1, candidates[1..]);
      LossComposes(w, w1, CleanedAll(w, candidates));
    }
  }

  lemma LossComposes(a: World, b: World, c: World)
    requires OnlyTemporaryLoss(a, b) && OnlyTemporaryLoss(b, c)
    ensures OnlyTemporaryLoss(a, c)
  {
    forall k | k in a.clients && k !in c.clients ensures a.clients[k].exactType == MUSIC_BOT {
      if k in b.clients { assert b.clients[k] == a.clients[k]; }
    }
  }

  lemma PassIsSafe(w: World)
    requires Valid(w)
    ensures Valid(Passed(w)) && OnlyTemporaryLoss(w, Passed(w))
    ensures Passed(w) != w ==> Size(Passed(w)) < Size(w)
  {
    CleanAllStep(w, Candidates(w.channels));
  }

  /** Repeating the pass until nothing changes. */
  ghost function Housekept(w: World): (r: World)
    requires Valid(w)
    ensures Valid(r) && OnlyTemporaryLoss(w, r)
    ensures Passed(r) == r
    decreases Size(w)
  {
    PassIsSafe(w);
    if Passed(w) == w then w else
      var r := Housekept(Passed(w));
      LossComposes(w, Passed(w), r);
      r
  }

  // --- When the pass changes nothing ---

  ghost predicate HasPerson(w: World, server: nat, channel: nat) {
    exists k :: k in ClientsIn(w.clients, server, channel) && w.clients[k].exactType != MUSIC_BOT
  }

  /** A temporary channel is left alone when a client that is no bot is in it, or when nobody is and it
      still has a child. */
  ghost predicate LeftAlone(w: World, server: nat, channel: nat)
    requires server in w.channels
  {
    || HasPerson(w, server, channel)
    || (ClientsIn(w.clients, server, channel) == {} && Children(w.channels[server], channel) != {})
  }

  lemma CleanupChanges(w: World, server: nat, channel: nat)
    requires Valid(w)
    ensures Cleaned(w, server, channel) == w <==>
      (IsTemporary(w, server, channel) ==> LeftAlone(w, server, channel))
  {
    if IsTemporary(w, server, channel) {
      var present := ClientsIn(w.clients, server, channel);
      var w1 := w.(clients := w.clients - Evicted(w, server, channel));
      EvictionStep(w, server, channel, w1);
      if Deserted(w1, server, channel) {
        var i := IndexOfId(w.channels[server], channel).value;
        assert FindById(w.channels[server], channel).value == w.channels[server][i];
        RemovalStep(w1, server, i, Cleaned(w, server, channel));
      }
      if OnlyBots(w.clients, present) && present != {} {
        var k :| k in present;
        assert k in w.clients && k !in w1.clients;
        assert k !in Cleaned(w, server, channel).clients;
      }
      if !OnlyBots(w.clients, present) {
        assert HasPerson(w, server, channel);
        assert w1.clients == w.clients;
      }
    }
  }

  ghost predicate Untouched(w: World, p: (nat, nat)) {
    Cleaned(w, p.0, p.1) == w
  }

  lemma {:induction false} UnchangedByAll(w: World, candidates: seq<(nat, nat)>)
    requires Valid(w)
    ensures CleanedAll(w, candidates) == w <==> forall p :: p in candidates ==> Untouched(w, p)
    decreases |candidates|
  {
    if candidates != [] {
      var first, rest := candidates[0], candidates[1..];
      assert candidates == [first] + rest;
      CleanupStep(w, first.0, first.1);
      if Untouched(w, first) {
        UnchangedByAll(w, rest);
      } else {
        ShrinksForGood(w, first, rest);
        assert first in candidates;
      }
    }
  }

  lemma ShrinksForGood(w: World, first: (nat, nat), rest: seq<(nat, nat)>)
    requires Valid(w) && !Untouched(w, first)
    ensures CleanedAll(Cleaned(w, first.0, first.1), rest) != w
  {
    CleanupStep(w, first.0, first.1);
    CleanAllStep(Cleaned(w, first.0, first.1), rest);
  }

  lemma {:induction false} TemporaryIdsMembers(server: nat, channels: seq<Channel>, p: (nat, nat))
    ensures p in TemporaryIds(server, channels) <==>
      p.0 == server && exists c :: c in channels && c.kind == Temporary && c.id == p.1
  {
    if channels != [] {
      TemporaryIdsMembers(server, channels[1..], p);
      assert forall c :: c in channels <==> c == channels[0] || c in channels[1..];
    }
  }

  lemma {:induction false} CandidatesMembers(channels: map<nat, seq<Channel>>, servers: seq<nat>, p: (nat, nat))
    ensures p in CandidatesOf(channels, servers) <==>
      p.0 in servers && p.0 in channels && exists c :: c in channels[p.0] && c.kind == Temporary && c.id == p.1
  {
    if servers != [] {
      CandidatesMembers(channels, servers[1..], p);
      assert servers == [servers[0]] + servers[1..];
      if servers[0] in channels {
        TemporaryIdsMembers(servers[0], channels[servers[0]], p);
      }
    }
  }

  lemma TemporaryIsCandidate(w: World, server: nat, channel: nat)
    requires Valid(w)
    ensures (server, channel) in Candidates(w.channels) <==> IsTemporary(w, server, channel)
  {
    var servers := Ascending(w.channels.Keys);
    CandidatesMembers(w.channels, servers, (server, channel));
    assert server in servers <==> server in Elems(servers);
    if server in w.channels {
      var found := FindById(w.channels[server], channel);
      forall c | c in w.channels[server] && c.id == channel ensures found == Some(c) {
        assert Forest(w.channels[server]);
      }
    }
  }

  /** The pass changes nothing exactly when it leaves every temporary channel alone. */
  lemma FixpointIsLeftAlone(w: World)
    requires Valid(w)
    ensures Passed(w) == w <==>
      forall server: nat, channel: nat :: IsTemporary(w, server, channel) ==> LeftAlone(w, server, channel)
  {
    var candidates := Candidates(w.channels);
    UnchangedByAll(w, candidates);
    forall server: nat, channel: nat | IsTemporary(w, server, channel)
      ensures (server, channel) in candidates && (Untouched(w, (server, channel)) <==> LeftAlone(w, server, channel))
    {
      TemporaryIsCandidate(w, server, channel);
      CleanupChanges(w, server, channel);
    }
    forall p | p in candidates ensures IsTemporary(w, p.0, p.1) {
      TemporaryIsCandidate(w, p.0, p.1);
    }
  }

  ghost predicate InUse(w: World, server: nat, channel: nat) {
    && ChannelExists(w.channels, server, channel)
    && (!IsTemporary(w, server, channel) || HasPerson(w, server, channel))
  }

  /** At the fixpoint every temporary channel has, in its subtree, a client that is no bot or a channel that
      is not temporary. */
  lemma FixpointSubtreesInUse(w: World, server: nat, channel: nat)
    requires Valid(w) && Passed(w) == w && IsTemporary(w, server, channel)
    ensures exists used :: InUse(w, server, used) && IsAncestorOrSelf(w.channels[server], channel, used)
  {
    assert Forest(w.channels[server]);
    assert Up(w.channels[server], channel, 0) == channel;
    assert channel != 0;
    assert ChannelExists(w.channels, server, channel);
    DescendToUse(w, server, channel, channel, {channel});
  }

  lemma AncestorOfChild(channels: seq<Channel>, a: nat, at: nat, child: nat)
    requires UniqueIds(channels) && NonZeroIds(channels) && child in Children(channels, at)
    requires IsAncestorOrSelf(channels, a, at)
    ensures IsAncestorOrSelf(channels, a, child)
  {
    var c :| c in channels && c.parent == at && c.id == child;
    ParentOfMember(channels, c);
    var n: nat :| Up(channels, at, n) == a;
    assert Up(channels, child, n + 1) == a;
  }

  lemma ChildNotAbove(channels: seq<Channel>, at: nat, child: nat)
    requires Forest(channels) && child in Children(channels, at)
    ensures !IsAncestorOrSelf(channels, child, at)
  {
    var c :| c in channels && c.parent == at && c.id == child;
    ParentOfMember(channels, c);
    if n: nat :| Up(channels, at, n) == child {
      assert Up(channels, child, n + 1) == child;
      NoCycle(channels, child, n + 1);
    }
  }

  lemma {:induction false} DescendToUse(w: World, server: nat, top: nat, at: nat, above: set<nat>)
    requires Valid(w) && Passed(w) == w && ChannelExists(w.channels, server, at)
    requires IsAncestorOrSelf(w.channels[server], top, at)
    requires forall a :: a in above ==> IsAncestorOrSelf(w.channels[server], a, at)
    ensures exists used :: InUse(w, server, used) && IsAncestorOrSelf(w.channels[server], top, used)
    decreases Ids(w.channels[server]) - above
  {
    var channels := w.channels[server];
    assert Forest(channels);
    if !InUse(w, server, at) {
      FixpointIsLeftAlone(w);
      assert LeftAlone(w, server, at);
      var child :| child in Children(channels, at);
      forall a | a in above + {top} ensures IsAncestorOrSelf(channels, a, child) {
        AncestorOfChild(channels, a, at, child);
      }
      assert child !in above by {
        if child in above { ChildNotAbove(channels, at, child); }
      }
      assert Up(channels, child, 0) == child && child in Ids(channels);
      DescendToUse(w, server, top, child, above + {child});
    }
  }
}
