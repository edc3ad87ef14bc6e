/** Walking the channel tree upwards (ancestors) and downwards (visibility). */
module ChannelForest {
  import opened Collections
  import opened ChannelOrder

  // --- Upwards ---

  /** Parent of the first channel with this id; 0 when there is none. */
  function Parent(channels: seq<Channel>, id: nat): nat {
    if channels == [] then 0
    else if channels[0].id == id then channels[0].parent
    else Parent(channels[1..], id)
  }

  lemma {:induction false} ParentOfMember(channels: seq<Channel>, c: Channel)
    requires UniqueIds(channels) && c in channels
    ensures Parent(channels, c.id) == c.parent
  {
    if channels[0] != c {
      assert c in channels[1..];
      ParentOfMember(channels[1..], c);
    }
  }

  lemma {:induction false} ParentOfMissing(channels: seq<Channel>, id: nat)
    requires id !in Ids(channels)
    ensures Parent(channels, id) == 0
  {
    if channels != [] {
      assert channels[0] in channels && forall c :: c in channels[1..] ==> c in channels;
      ParentOfMissing(channels[1..], id);
    }
  }

  /** The `n`-th ancestor, 0 once the walk has left the tree. */
  function Up(channels: seq<Channel>, id: nat, n: nat): nat
    decreases n
  {
    if n == 0 || id == 0 then id else Up(channels, Parent(channels, id), n - 1)
  }

  lemma {:induction false} UpAdd(channels: seq<Channel>, id: nat, m: nat, n: nat)
    decreases m
    ensures Up(channels, Up(channels, id, m), n) == Up(channels, id, m + n)
  {
    if m != 0 && id != 0 {
      UpAdd(channels, Parent(channels, id), m - 1, n);
    }
  }

  ghost predicate ReachesRoot(channels: seq<Channel>, id: nat) {
    exists n :: Up(channels, id, n) == 0
  }

  /** Representation invariant: unique non-zero ids, every parent exists, every channel reaches 0. */
  ghost predicate Forest(channels: seq<Channel>) {
    && UniqueIds(channels) && NonZeroIds(channels)
    && (forall c :: c in channels ==> c.parent == 0 || c.parent in Ids(channels))
    && (forall c :: c in channels ==> ReachesRoot(channels, c.id))
  }

  ghost predicate IsAncestorOrSelf(channels: seq<Channel>, ancestor: nat, id: nat) {
    ancestor != 0 && exists n :: Up(channels, id, n) == ancestor
  }

  /** The walk ends exactly when it meets the target or leaves the tree, which a forest guarantees. */
  method ChannelIsDescendant(channels: seq<Channel>, candidate: nat, target: nat) returns (found: bool)
    requires ReachesRoot(channels, candidate) || IsAncestorOrSelf(channels, target, candidate)
    ensures found <==> IsAncestorOrSelf(channels, target, candidate)
  {
    ghost var end: nat :| Up(channels, candidate, end) == 0 || (target != 0 && Up(channels, candidate, end) == target);
    ghost var k := 0;
    var current := candidate;
    while current != 0
      invariant k <= end && current == Up(channels, candidate, k)
      invariant target != 0 ==> forall j :: 0 <= j < k ==> Up(channels, candidate, j) != target
      decreases end - k
    {
      if current == target {
        return true;
      }
      UpAdd(channels, candidate, k, 1);
      if k == end { assert false; }
      current := Parent(channels, current);
      k := k + 1;
    }
    forall n: nat | target != 0 ensures Up(channels, candidate, n) != target {
      if n >= k {
        UpAdd(channels, candidate, k, n - k);
      }
    }
    return false;
  }

  ghost function Depth(channels: seq<Channel>, id: nat): (d: nat)
    requires ReachesRoot(channels, id)
    ensures Up(channels, id, d) == 0
    ensures forall n :: 0 <= n < d ==> Up(channels, id, n) != 0
  {
    var n: nat :| Up(channels, id, n) == 0;
    LeastStep(channels, id, n)
  }

  ghost function LeastStep(channels: seq<Channel>, id: nat, n: nat): (d: nat)
    requires Up(channels, id, n) == 0
    ensures Up(channels, id, d) == 0
    ensures forall k :: 0 <= k < d ==> Up(channels, id, k) != 0
    decreases n
  {
    if id == 0 then 0 else 1 + LeastStep(channels, Parent(channels, id), n - 1)
  }

  /** A channel that reaches the root is not its own proper ancestor. */
  lemma NoCycle(channels: seq<Channel>, id: nat, k: nat)
    requires id != 0 && ReachesRoot(channels, id) && k > 0
    ensures Up(channels, id, k) != id
  {
    if Up(channels, id, k) == id {
      var d := Depth(channels, id);
      RootIsFinal(channels, id, d, d + k);
      UpAdd(channels, id, k, d - 1);
      if k - 1 + d >= d {
        RootIsFinal(channels, id, d, k + d - 1);
      }
    }
  }

  lemma RootIsFinal(channels: seq<Channel>, id: nat, m: nat, n: nat)
    requires m <= n && Up(channels, id, m) == 0
    ensures Up(channels, id, n) == 0
  {
    UpAdd(channels, id, m, n - m);
  }

  // --- Downwards ---

  /** `seen` holds the ids on the way down to `at`: it is closed under parents and `at` is its tip.
      This is what makes the downward recursion terminate, whatever else the list contains. */
  ghost predicate Tip(channels: seq<Channel>, seen: set<nat>, at: nat) {
    && (at == 0 || at in seen)
    && forall c :: c in channels && c.id in seen ==> (c.parent == 0 || c.parent in seen) && c.parent != at
  }

  lemma TipDown(channels: seq<Channel>, seen: set<nat>, at: nat, id: nat)
    requires UniqueIds(channels) && NonZeroIds(channels)
    requires Tip(channels, seen, at) && id in Children(channels, at)
    ensures id in Ids(channels) && id !in seen
    ensures Tip(channels, seen + {id}, id)
  {
  }

  /** `id` climbs to `at` in `n` steps, over existing channels that all pass `view`. */
  ghost predicate ClimbsTo(channels: seq<Channel>, view: nat -> bool, id: nat, at: nat, n: nat) {
    && n > 0 && Up(channels, id, n) == at
    && forall k :: 0 <= k < n ==> Up(channels, id, k) in Ids(channels) && view(Up(channels, id, k))
  }

  lemma ClimbFromChild(channels: seq<Channel>, view: nat -> bool, id: nat, p: nat, at: nat, n: nat)
    requires UniqueIds(channels) && id in Children(channels, p) && id != 0 && view(id)
    requires ClimbsTo(channels, view, p, at, n)
    ensures ClimbsTo(channels, view, id, at, n + 1)
  {
    var c :| c in channels && c.parent == p && c.id == id;
    ParentOfMember(channels, c);
    forall k | 0 <= k < n + 1 ensures Up(channels, id, k) in Ids(channels) && view(Up(channels, id, k)) {
      if k > 0 { assert Up(channels, id, k) == Up(channels, p, k - 1); }
    }
    assert Up(channels, id, n + 1) == Up(channels, p, n);
  }

  ghost predicate PassesBelow(channels: seq<Channel>, view: nat -> bool, id: nat, at: nat) {
    exists n :: ClimbsTo(channels, view, id, at, n)
  }

  /** `id` is `child` or passes below it, and `child` itself may be viewed. */
  ghost predicate PassesUnder(channels: seq<Channel>, view: nat -> bool, id: nat, child: nat) {
    view(child) && (id == child || PassesBelow(channels, view, id, child))
  }

  lemma PassesBelowByChild(channels: seq<Channel>, view: nat -> bool, id: nat, at: nat)
    requires UniqueIds(channels) && NonZeroIds(channels)
    ensures PassesBelow(channels, view, id, at)
       <==> exists child :: child in Children(channels, at) && PassesUnder(channels, view, id, child)
  {
    if n: nat :| ClimbsTo(channels, view, id, at, n) {
      var child := Up(channels, id, n - 1);
      UpAdd(channels, id, n - 1, 1);
      var c :| c in channels && c.id == child;
      ParentOfMember(channels, c);
      assert child in Children(channels, at);
      if n > 1 {
        assert ClimbsTo(channels, view, id, child, n - 1);
      }
      assert PassesUnder(channels, view, id, child);
    }
    forall child | child in Children(channels, at) && PassesUnder(channels, view, id, child)
      ensures PassesBelow(channels, view, id, at)
    {
      var c :| c in channels && c.parent == at && c.id == child;
      ParentOfMember(channels, c);
      if id == child {
        assert Up(channels, id, 1) == at;
        assert ClimbsTo(channels, view, id, at, 1);
      } else {
        var n: nat :| ClimbsTo(channels, view, id, child, n);
        UpAdd(channels, id, n, 1);
        assert Up(channels, child, 1) == at;
        assert ClimbsTo(channels, view, id, at, n + 1);
      }
    }
  }

  /** The downward recursion adds exactly the channels that pass below `at`. */
  method CollectVisible(channels: seq<Channel>, at: nat, view: nat -> bool, visible: set<nat>, ghost seen: set<nat>)
    returns (result: set<nat>)
    requires UniqueIds(channels) && NonZeroIds(channels) && Tip(channels, seen, at)
    ensures forall id :: id in result <==> id in visible || PassesBelow(channels, view, id, at)
    decreases Ids(channels) - seen
  {
    var ids := OrderedSiblingIds(channels, at, None);
    result := visible;
    for i := 0 to |ids|
      invariant forall id :: id in result <==> id in visible || PassesAmong(channels, view, id, ids[..i])
    {
      var child := ids[i];
      PassesAmongStep(channels, view, ids, i);
      if view(child) {
        assert child in Elems(ids);
        TipDown(channels, seen, at, child);
        result := CollectVisible(channels, child, view, result + {child}, seen + {child});
      }
    }
    assert ids[..|ids|] == ids;
    forall id ensures PassesAmong(channels, view, id, ids) <==> PassesBelow(channels, view, id, at) {
      PassesBelowByChild(channels, view, id, at);
      assert forall child :: child in ids <==> child in Elems(ids);
    }
  }

  ghost predicate PassesAmong(channels: seq<Channel>, view: nat -> bool, id: nat, children: seq<nat>) {
    exists child :: child in children && PassesUnder(channels, view, id, child)
  }

  lemma PassesAmongStep(channels: seq<Channel>, view: nat -> bool, ids: seq<nat>, i: nat)
    requires i < |ids|
    ensures forall id :: (PassesAmong(channels, view, id, ids[..i + 1])
      <==> PassesAmong(channels, view, id, ids[..i]) || PassesUnder(channels, view, id, ids[i]))
  {
    assert ids[..i + 1] == ids[..i] + [ids[i]];
  }

  ghost predicate AncestorClosed(channels: seq<Channel>, ids: set<nat>) {
    forall c :: c in channels && c.id in ids ==> c.parent == 0 || c.parent in ids
  }

  ghost predicate IsForced(channels: seq<Channel>, forced: Option<nat>, id: nat) {
    forced.Some? && forced.value in Ids(channels) && IsAncestorOrSelf(channels, id, forced.value)
  }

  /** What a client sees: every channel that passes together with all its ancestors, plus the channel the
      client is in and that channel's ancestors. */
  method VisibleChannelIds(channels: seq<Channel>, view: nat -> bool, forced: Option<nat>)
    returns (visible: set<nat>)
    requires Forest(channels)
    ensures forall id :: id in visible <==> PassesBelow(channels, view, id, 0) || IsForced(channels, forced, id)
    ensures visible <= Ids(channels) && AncestorClosed(channels, visible)
  {
    visible := CollectVisible(channels, 0, view, {}, {});
    if forced.Some? && forced.value in Ids(channels) {
      var start := forced.value;
      ghost var c :| c in channels && c.id == start;
      ghost var depth := Depth(channels, start);
      ghost var k := 0;
      ghost var below := visible;
      var current := Some(start);
      while current.Some? && current.value != 0
        invariant k <= depth
        invariant Up(channels, start, k) == if current.Some? then current.value else 0
        invariant forall id :: id in visible <==>
          id in below || exists j :: 0 <= j < k && Up(channels, start, j) == id
        decreases depth - k
      {
        var id := current.value;
        visible := visible + {id};
        UpAdd(channels, start, k, 1);
        ParentOfMissingAll(channels, id);
        current := if id in Ids(channels) then Some(Parent(channels, id)) else None;
        k := k + 1;
      }
      forall id ensures id in visible <==> PassesBelow(channels, view, id, 0) || IsForced(channels, forced, id) {
        if n: nat :| id != 0 && Up(channels, start, n) == id {
          if n >= k { RootIsFinal(channels, start, k, n); }
        }
      }
    }
    VisibleIsClosed(channels, view, forced, visible);
  }

  lemma ParentOfMissingAll(channels: seq<Channel>, id: nat)
    ensures id !in Ids(channels) ==> Parent(channels, id) == 0
  {
    if id !in Ids(channels) { ParentOfMissing(channels, id); }
  }

  lemma AncestorExists(channels: seq<Channel>, id: nat, n: nat)
    requires Forest(channels) && id in Ids(channels)
    ensures Up(channels, id, n) == 0 || Up(channels, id, n) in Ids(channels)
    decreases n
  {
    if n > 0 {
      var c :| c in channels && c.id == id;
      ParentOfMember(channels, c);
      if c.parent != 0 {
        AncestorExists(channels, c.parent, n - 1);
      }
    }
  }

  lemma VisibleIsClosed(channels: seq<Channel>, view: nat -> bool, forced: Option<nat>, visible: set<nat>)
    requires Forest(channels)
    requires forall id :: id in visible <==> PassesBelow(channels, view, id, 0) || IsForced(channels, forced, id)
    ensures visible <= Ids(channels) && AncestorClosed(channels, visible)
  {
    forall id | id in visible ensures id in Ids(channels) {
      if n: nat :| ClimbsTo(channels, view, id, 0, n) {
        assert Up(channels, id, 0) == id;
      } else {
        var n: nat :| Up(channels, forced.value, n) == id;
        AncestorExists(channels, forced.value, n);
      }
    }
    forall c | c in channels && c.id in visible && c.parent != 0 ensures c.parent in visible {
      ParentOfMember(channels, c);
      if n: nat :| ClimbsTo(channels, view, c.id, 0, n) {
        UpAdd(channels, c.id, 1, n - 1);
        assert Up(channels, c.id, 1) == c.parent;
        forall k | 0 <= k < n - 1
          ensures Up(channels, c.parent, k) in Ids(channels) && view(Up(channels, c.parent, k))
        {
          UpAdd(channels, c.id, 1, k);
        }
        assert ClimbsTo(channels, view, c.parent, 0, n - 1);
      } else {
        var n: nat :| Up(channels, forced.value, n) == c.id;
        UpAdd(channels, forced.value, n, 1);
        assert Up(channels, c.id, 1) == c.parent;
        assert IsForced(channels, forced, c.parent);
      }
    }
  }
}
