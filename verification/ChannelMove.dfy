/** Moving a channel to another place in the tree. */
module ChannelMove {
  import opened Collections
  import opened ChannelOrder
  import opened ChannelForest
  import opened FamilyCounts
  import opened Housekeeping
  import opened HousekeepingSafety

  datatype MoveError = ChannelNotFound | ParentNotFound | BelowItself | AnchorNotFound

  function IndexIn(s: seq<nat>, x: nat): (r: Option<nat>)
    ensures r.Some? ==> r.value < |s| && s[r.value] == x
    ensures r.None? <==> x !in s
  {
    if s == [] then None
    else if s[0] == x then Some(0)
    else
      match IndexIn(s[1..], x)
      case Some(i) => Some(i + 1)
      case None => None
  }

  /** Order 0 asks for the front, no order for the back, and an id for the place right after that sibling. */
  function ResolveInsertIndex(siblings: seq<nat>, requested: Option<nat>): (index: Option<nat>)
    ensures index.None? <==> requested.Some? && requested.value != 0 && requested.value !in siblings
    ensures index.Some? ==> index.value <= |siblings|
    ensures index.Some? && requested.Some? ==> PreviousIn(siblings, index.value) == requested.value
    ensures index.Some? && requested.None? ==> index.value == |siblings|
  {
    match requested
    case None => Some(|siblings|)
    case Some(anchor) =>
      if anchor == 0 then Some(0) else
        match IndexIn(siblings, anchor)
        case Some(i) => Some(i + 1)
        case None => None
  }

  function Inserted(s: seq<nat>, i: nat, x: nat): seq<nat>
    requires i <= |s|
  {
    s[..i] + [x] + s[i..]
  }

  function Reparented(channels: seq<Channel>, i: nat, parent: nat): seq<Channel>
    requires i < |channels|
  {
    channels[i := channels[i].(parent := parent)]
  }

  /** The channel list after the channel at `i` is put at `index` among the other children of `parent`. */
  function Moved(channels: seq<Channel>, i: nat, parent: nat, index: nat): seq<Channel>
    requires i < |channels| && index <= |SiblingOrder(channels, parent, Some(channels[i].id))|
  {
    var id, previous := channels[i].id, channels[i].parent;
    var ids := Inserted(SiblingOrder(channels, parent, Some(id)), index, id);
    var placed := Relinked(Reparented(channels, i, parent), parent, ids, 0);
    if previous == parent then placed
    else Relinked(placed, previous, SiblingOrder(placed, previous, Some(id)), 0)
  }

  predicate IsMove(before: seq<Channel>, after: seq<Channel>, id: nat, parent: nat, requested: Option<nat>) {
    var i := IndexOfId(before, id);
    var index := ResolveInsertIndex(SiblingOrder(before, parent, Some(id)), requested);
    i.Some? && index.Some? && after == Moved(before, i.value, parent, index.value)
  }

  method MoveChannel(channels: array<Channel>, id: nat, parent: nat, requested: Option<nat>)
    returns (error: Option<MoveError>)
    requires Forest(channels[..])
    modifies channels
    ensures error == Some(ChannelNotFound) <==> id !in Ids(old(channels[..]))
    ensures error == Some(ParentNotFound) <==>
      id in Ids(old(channels[..])) && parent != 0 && parent !in Ids(old(channels[..]))
    ensures error == Some(BelowItself) <==>
      && id in Ids(old(channels[..])) && (parent == 0 || parent in Ids(old(channels[..])))
      && IsAncestorOrSelf(old(channels[..]), id, parent)
    ensures error == Some(AnchorNotFound) ==>
      ResolveInsertIndex(SiblingOrder(old(channels[..]), parent, Some(id)), requested).None?
    ensures error.Some? ==> channels[..] == old(channels[..])
    ensures error.None? ==>
      && id in Ids(old(channels[..])) && (parent == 0 || parent in Ids(old(channels[..])))
      && !IsAncestorOrSelf(old(channels[..]), id, parent)
      && IsMove(old(channels[..]), channels[..], id, parent, requested)
  {
    ghost var before := channels[..];
    var found := IndexOfId(channels[..], id);
    if found.None? {
      return Some(ChannelNotFound);
    }
    var i := found.value;
    assert before[i] in before;
    if parent != 0 && parent !in Ids(channels[..]) {
      return Some(ParentNotFound);
    }
    EveryIdReachesRoot(before, parent);
    var below := ChannelIsDescendant(channels[..], parent, id);
    assert Up(before, parent, 0) == parent;
    if id == parent || below {
      return Some(BelowItself);
    }
    var previous := channels[i].parent;
    var siblings := OrderedSiblingIds(channels[..], parent, Some(id));
    var index := ResolveInsertIndex(siblings, requested);
    if index.None? {
      return Some(AnchorNotFound);
    }
    channels[i] := channels[i].(parent := parent);
    assert channels[..] == Reparented(before, i, parent);
    var ids := siblings[..index.value] + [id] + siblings[index.value..];
    RelinkSiblingOrders(channels, parent, ids);
    if previous != parent {
      var left := OrderedSiblingIds(channels[..], previous, Some(id));
      RelinkSiblingOrders(channels, previous, left);
    }
    return None;
  }

  // --- The guard keeps the tree a forest ---

  lemma ReparentedParent(channels: seq<Channel>, i: nat, parent: nat, id: nat)
    requires UniqueIds(channels) && i < |channels|
    ensures Parent(Reparented(channels, i, parent), id) ==
      if id == channels[i].id then parent else Parent(channels, id)
    ensures Ids(Reparented(channels, i, parent)) == Ids(channels)
  {
    var result := Reparented(channels, i, parent);
    forall x ensures x in Ids(result) <==> x in Ids(channels) {
      if c :| c in channels && c.id == x {
        var k :| 0 <= k < |channels| && channels[k] == c;
        assert result[k].id == x;
      }
      if c :| c in result && c.id == x {
        var k :| 0 <= k < |result| && result[k] == c;
        assert channels[k].id == x;
      }
    }
    if id in Ids(channels) {
      var c :| c in channels && c.id == id;
      var k :| 0 <= k < |channels| && channels[k] == c;
      ParentOfMember(channels, c);
      ParentOfMember(result, result[k]);
    } else {
      assert channels[i] in channels;
      ParentOfMissing(channels, id);
      ParentOfMissing(result, id);
    }
  }

  /** Walks that do not meet the moved channel are unchanged. */
  lemma {:induction false} UpAvoiding(channels: seq<Channel>, i: nat, parent: nat, id: nat, n: nat)
    requires UniqueIds(channels) && i < |channels|
    requires forall k :: 0 <= k < n ==> Up(channels, id, k) != channels[i].id
    ensures Up(Reparented(channels, i, parent), id, n) == Up(channels, id, n)
    decreases n
  {
    if n > 0 && id != 0 {
      ReparentedParent(channels, i, parent, id);
      assert Up(channels, id, 0) == id;
      forall k | 0 <= k < n - 1 ensures Up(channels, Parent(channels, id), k) != channels[i].id {
        assert Up(channels, id, k + 1) == Up(channels, Parent(channels, id), k);
      }
      UpAvoiding(channels, i, parent, Parent(channels, id), n - 1);
    }
  }

  lemma {:induction false} StillReachesRoot(channels: seq<Channel>, i: nat, parent: nat, id: nat, n: nat)
    requires Forest(channels) && i < |channels| && Up(channels, id, n) == 0
    requires !IsAncestorOrSelf(channels, channels[i].id, parent)
    ensures ReachesRoot(Reparented(channels, i, parent), id)
    decreases n
  {
    var result := Reparented(channels, i, parent);
    ReparentedParent(channels, i, parent, id);
    if id == 0 {
      assert Up(result, id, 0) == 0;
    } else if id == channels[i].id {
      EveryIdReachesRoot(channels, parent);
      var m: nat :| Up(channels, parent, m) == 0;
      UpAvoiding(channels, i, parent, parent, m);
      assert Up(result, id, m + 1) == 0;
    } else {
      StillReachesRoot(channels, i, parent, Parent(channels, id), n - 1);
      var m: nat :| Up(result, Parent(channels, id), m) == 0;
      assert Up(result, id, m + 1) == 0;
    }
  }

  lemma {:induction false} FirstMeeting(channels: seq<Channel>, id: nat, target: nat, n: nat) returns (m: nat)
    requires Up(channels, id, n) == target && target != 0
    ensures Up(channels, id, m) == target && forall k :: 0 <= k < m ==> Up(channels, id, k) != target
    decreases n
  {
    if id == target {
      m := 0;
    } else {
      m := FirstMeeting(channels, Parent(channels, id), target, n - 1);
      m := m + 1;
      forall k | 0 <= k < m ensures Up(channels, id, k) != target {
        if k > 0 { assert Up(channels, id, k) == Up(channels, Parent(channels, id), k - 1); }
      }
    }
  }

  /** Giving a channel a new parent keeps the forest exactly when the parent is neither the channel itself
      nor one of its descendants: the guard is neither too weak nor too strong. */
  lemma GuardIsExact(channels: seq<Channel>, i: nat, parent: nat)
    requires Forest(channels) && i < |channels| && (parent == 0 || parent in Ids(channels))
    ensures Forest(Reparented(channels, i, parent)) <==> !IsAncestorOrSelf(channels, channels[i].id, parent)
  {
    var result := Reparented(channels, i, parent);
    var id := channels[i].id;
    assert channels[i] in channels;
    ReparentedParent(channels, i, parent, id);
    if IsAncestorOrSelf(channels, id, parent) {
      var n: nat :| Up(channels, parent, n) == id;
      var m := FirstMeeting(channels, parent, id, n);
      UpAvoiding(channels, i, parent, parent, m);
      assert Up(result, id, m + 1) == id;
      if ReachesRoot(result, id) { NoCycle(result, id, m + 1); }
      assert result[i] in result && result[i].id == id;
    } else {
      forall c | c in result
        ensures c.id != 0 && (c.parent == 0 || c.parent in Ids(result)) && ReachesRoot(result, c.id)
      {
        var k :| 0 <= k < |result| && result[k] == c;
        assert channels[k] in channels && channels[k].id == c.id;
        var n: nat :| Up(channels, c.id, n) == 0;
        StillReachesRoot(channels, i, parent, c.id, n);
      }
    }
  }

  lemma MoveKeepsForest(channels: seq<Channel>, i: nat, parent: nat, index: nat)
    requires Forest(channels) && i < |channels| && (parent == 0 || parent in Ids(channels))
    requires index <= |SiblingOrder(channels, parent, Some(channels[i].id))|
    requires !IsAncestorOrSelf(channels, channels[i].id, parent)
    ensures Forest(Moved(channels, i, parent, index))
  {
    var id, previous := channels[i].id, channels[i].parent;
    GuardIsExact(channels, i, parent);
    var ids := Inserted(SiblingOrder(channels, parent, Some(id)), index, id);
    RelinkKeepsForest(Reparented(channels, i, parent), parent, ids);
    var placed := Relinked(Reparented(channels, i, parent), parent, ids, 0);
    RelinkKeepsForest(placed, previous, SiblingOrder(placed, previous, Some(id)));
  }

  // --- What the move does to the orders ---

  lemma {:induction false} ExcludedAbsent(channels: seq<Channel>, parent: nat, id: nat)
    requires forall c :: c in channels && c.parent == parent ==> c.id != id
    ensures Siblings(channels, parent, Some(id)) == Siblings(channels, parent, None)
  {
    if channels != [] {
      assert channels[0] in channels && forall c :: c in channels[1..] ==> c in channels;
      ExcludedAbsent(channels[1..], parent, id);
    }
  }

  /** Leaving a channel out of its siblings is the same as ordering the list without it. */
  lemma ExcludedIsWithout(channels: seq<Channel>, i: nat, parent: nat)
    requires UniqueIds(channels) && i < |channels|
    ensures SiblingOrder(channels, parent, Some(channels[i].id)) == SiblingOrder(Without(channels, i), parent, None)
  {
    WithoutMembers(channels, i);
    WithoutSiblings(channels, i, parent, Some(channels[i].id));
    ExcludedAbsent(Without(channels, i), parent, channels[i].id);
  }

  lemma ReparentedOrder(channels: seq<Channel>, i: nat, parent: nat, other: nat)
    requires UniqueIds(channels) && i < |channels| && other != parent
    ensures SiblingOrder(Reparented(channels, i, parent), other, None)
         == SiblingOrder(Without(channels, i), other, None)
  {
    var result := Reparented(channels, i, parent);
    assert Without(result, i) == Without(channels, i);
    WithoutSiblings(result, i, other, None);
  }

  lemma PlacedOrder(channels: seq<Channel>, i: nat, parent: nat, index: nat)
    requires UniqueIds(channels) && NonZeroIds(channels) && i < |channels|
    requires index <= |SiblingOrder(channels, parent, Some(channels[i].id))|
    ensures var ids := Inserted(SiblingOrder(channels, parent, Some(channels[i].id)), index, channels[i].id);
      && SiblingOrder(Relinked(Reparented(channels, i, parent), parent, ids, 0), parent, None) == ids
      && WellLinked(Relinked(Reparented(channels, i, parent), parent, ids, 0), parent, ids)
  {
    var id := channels[i].id;
    var siblings := SiblingOrder(channels, parent, Some(id));
    var ids := Inserted(siblings, index, id);
    var result := Reparented(channels, i, parent);
    ReparentedParent(channels, i, parent, id);
    assert id !in Elems(siblings);
    NoDupConcat(siblings[..index], [id] + siblings[index..]);
    assert ids == siblings[..index] + ([id] + siblings[index..]);
    forall x ensures x in Elems(ids) <==> x in Children(result, parent) {
      InsertedMembers(siblings, index, id, x);
      if x in Children(result, parent) && x != id {
        var c :| c in result && c.parent == parent && c.id == x;
        var k :| 0 <= k < |result| && result[k] == c;
        assert channels[k] == c;
        assert x in Elems(siblings);
      }
      if x in Elems(siblings) {
        var c :| c in channels && IsSibling(c, parent, Some(id)) && c.id == x;
        var k :| 0 <= k < |channels| && channels[k] == c;
        assert result[k] == c;
      }
      assert result[i] in result;
    }
    RelinkInvertsOrdering(result, parent, ids);
  }

  lemma InsertedMembers(s: seq<nat>, i: nat, id: nat, x: nat)
    requires i <= |s|
    ensures x in Inserted(s, i, id) <==> x in s || x == id
  {
    assert s == s[..i] + s[i..];
  }

  /** After a move, the new parent lists its other children with the channel inserted, and every other
      parent lists its children with the channel left out. */
  lemma MoveOrders(channels: seq<Channel>, i: nat, parent: nat, index: nat, other: nat)
    requires Forest(channels) && i < |channels|
    requires index <= |SiblingOrder(channels, parent, Some(channels[i].id))|
    ensures SiblingOrder(Moved(channels, i, parent, index), parent, None)
         == Inserted(SiblingOrder(channels, parent, Some(channels[i].id)), index, channels[i].id)
    ensures other == parent
         || SiblingOrder(Moved(channels, i, parent, index), other, None)
              == SiblingOrder(channels, other, Some(channels[i].id))
  {
    var id, previous := channels[i].id, channels[i].parent;
    var ids := Inserted(SiblingOrder(channels, parent, Some(id)), index, id);
    var reparented := Reparented(channels, i, parent);
    var placed := Relinked(reparented, parent, ids, 0);
    PlacedOrder(channels, i, parent, index);
    if other != parent {
      ExcludedIsWithout(channels, i, other);
      ReparentedOrder(channels, i, parent, other);
      RelinkFrame(reparented, parent, ids, other, None);
    }
    if previous != parent {
      var left := SiblingOrder(placed, previous, Some(id));
      RelinkFrame(placed, previous, left, parent, None);
      if other != previous {
        RelinkFrame(placed, previous, left, other, None);
      } else {
        SameShapeIds(reparented, placed, previous);
        MovedAway(channels, i, parent, placed);
        ExcludedAbsent(placed, previous, id);
        RelinkInvertsOrdering(placed, previous, left);
      }
    }
  }

  /** A move stores the links of both parents' lists anew, and leaves well-linked lists of others as they are. */
  lemma MoveStoresLinks(channels: seq<Channel>, i: nat, parent: nat, index: nat, other: nat, list: seq<nat>)
    requires Forest(channels) && i < |channels|
    requires index <= |SiblingOrder(channels, parent, Some(channels[i].id))|
    ensures var moved, id := Moved(channels, i, parent, index), channels[i].id;
      && WellLinked(moved, parent, Inserted(SiblingOrder(channels, parent, Some(id)), index, id))
      && (channels[i].parent != parent ==>
            WellLinked(moved, channels[i].parent, SiblingOrder(channels, channels[i].parent, Some(id))))
    ensures other != parent && other != channels[i].parent && WellLinked(channels, other, list) ==>
      WellLinked(Moved(channels, i, parent, index), other, list)
  {
    var id, previous := channels[i].id, channels[i].parent;
    var ids := Inserted(SiblingOrder(channels, parent, Some(id)), index, id);
    var placed := Relinked(Reparented(channels, i, parent), parent, ids, 0);
    PlacedOrder(channels, i, parent, index);
    if previous != parent {
      var left := SiblingOrder(placed, previous, Some(id));
      RelinkKeepsLinks(placed, previous, left, parent, ids);
      LeftBehind(channels, i, parent, placed);
      LeftOrder(channels, i, parent, ids);
    }
    if other != parent && other != previous && WellLinked(channels, other, list) {
      ReparentKeepsLinks(channels, i, parent, other, list);
      RelinkKeepsLinks(Reparented(channels, i, parent), parent, ids, other, list);
      if previous != parent {
        RelinkKeepsLinks(placed, previous, SiblingOrder(placed, previous, Some(id)), other, list);
      }
    }
  }

  lemma LeftBehind(channels: seq<Channel>, i: nat, parent: nat, placed: seq<Channel>)
    requires UniqueIds(channels) && NonZeroIds(channels) && i < |channels| && channels[i].parent != parent
    requires |placed| == |channels|
    requires forall k :: 0 <= k < |placed| ==> placed[k].id == Reparented(channels, i, parent)[k].id
    requires forall k :: 0 <= k < |placed| ==> placed[k].parent == Reparented(channels, i, parent)[k].parent
    ensures var previous, id := channels[i].parent, channels[i].id;
      var left := SiblingOrder(placed, previous, Some(id));
      WellLinked(Relinked(placed, previous, left, 0), previous, left)
  {
    MovedAway(channels, i, parent, placed);
    ExcludedAbsent(placed, channels[i].parent, channels[i].id);
    RelinkInvertsOrdering(placed, channels[i].parent, SiblingOrder(placed, channels[i].parent, Some(channels[i].id)));
  }

  /** Placing the channel below its new parent does not change the order it leaves behind. */
  lemma LeftOrder(channels: seq<Channel>, i: nat, parent: nat, ids: seq<nat>)
    requires UniqueIds(channels) && NonZeroIds(channels) && i < |channels| && channels[i].parent != parent
    ensures var previous, id := channels[i].parent, channels[i].id;
      SiblingOrder(Relinked(Reparented(channels, i, parent), parent, ids, 0), previous, Some(id))
        == SiblingOrder(channels, previous, Some(id))
  {
    var previous, id := channels[i].parent, channels[i].id;
    var reparented := Reparented(channels, i, parent);
    RelinkFrame(reparented, parent, ids, previous, Some(id));
    assert Without(reparented, i) == Without(channels, i);
    WithoutSiblings(reparented, i, previous, Some(id));
    WithoutSiblings(channels, i, previous, Some(id));
  }

  lemma ReparentKeepsLinks(channels: seq<Channel>, i: nat, parent: nat, other: nat, list: seq<nat>)
    requires i < |channels| && other != parent && other != channels[i].parent && WellLinked(channels, other, list)
    ensures WellLinked(Reparented(channels, i, parent), other, list)
  {
    var result := Reparented(channels, i, parent);
    forall c ensures c in result && c.parent == other <==> c in channels && c.parent == other {
      if c in result && c.parent == other {
        var k :| 0 <= k < |result| && result[k] == c;
        assert channels[k] == c;
      }
      if c in channels && c.parent == other {
        var k :| 0 <= k < |channels| && channels[k] == c;
        assert result[k] == c;
      }
    }
    assert Children(result, other) == Children(channels, other);
    forall c, k | c in result && c.parent == other && 0 <= k < |list| && c.id == list[k]
      ensures c.order == PreviousIn(list, k)
    {
      var before := PreviousIn(list, k);
    }
  }

  lemma MovedAway(channels: seq<Channel>, i: nat, parent: nat, placed: seq<Channel>)
    requires UniqueIds(channels) && NonZeroIds(channels) && i < |channels| && channels[i].parent != parent
    requires |placed| == |channels|
    requires forall k :: 0 <= k < |placed| ==> placed[k].id == Reparented(channels, i, parent)[k].id
    requires forall k :: 0 <= k < |placed| ==> placed[k].parent == Reparented(channels, i, parent)[k].parent
    ensures UniqueIds(placed) && NonZeroIds(placed)
    ensures forall c :: c in placed && c.parent == channels[i].parent ==> c.id != channels[i].id
  {
    forall c | c in placed ensures c.id != 0 && (c.parent == channels[i].parent ==> c.id != channels[i].id) {
      var k :| 0 <= k < |placed| && placed[k] == c;
      assert channels[k] in channels;
    }
  }

  /** A well-linked parent that loses a channel keeps the channels before it and sorts those after it. */
  lemma LeavingSortsTheRest(channels: seq<Channel>, i: nat, parent: nat, index: nat, list: seq<nat>, k: nat)
    requires Forest(channels) && i < |channels| && channels[i].parent != parent
    requires index <= |SiblingOrder(channels, parent, Some(channels[i].id))|
    requires WellLinked(channels, channels[i].parent, list) && k < |list| && list[k] == channels[i].id
    ensures SiblingOrder(Moved(channels, i, parent, index), channels[i].parent, None)
         == list[..k] + Ascending(After(list, k))
    ensures SiblingOrder(Moved(channels, i, parent, index), channels[i].parent, None) == list[..k] + list[k + 1..]
       <==> IsAscending(list[k + 1..])
  {
    MoveOrders(channels, i, parent, index, channels[i].parent);
    ExcludedIsWithout(channels, i, channels[i].parent);
    OrderAfterRemoval(channels, i, list, k);
    RemovalKeepsLinks(channels, i, list, k);
  }

  /** When the first of three channels linked 1, 3, 2 moves below channel 2, the two left behind change places. */
  lemma MoveLosesOrder()
    ensures SiblingOrder(LinkedExample(), 0, None) == [1, 3, 2]
    ensures SiblingOrder(Moved(LinkedExample(), 0, 2, 0), 0, None) == [2, 3]
  {
    ExampleIsLinked();
    SortedPair([1, 3, 2], [2, 3]);
    DeletionLosesOrder();
    ExampleIsForest();
    LeavingSortsTheRest(LinkedExample(), 0, 2, 0, [1, 3, 2], 0);
  }

  lemma ExampleIsForest()
    ensures Forest(LinkedExample())
  {
    ExampleIsLinked();
    var channels := LinkedExample();
    forall c | c in channels ensures ReachesRoot(channels, c.id) {
      ParentOfMember(channels, c);
      assert Up(channels, c.id, 1) == 0;
    }
  }
}
