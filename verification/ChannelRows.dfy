/** The channel rows sent to a viewer: the visible channels in preorder, their sibling links rewritten
    so that they only mention visible channels. */
module ChannelRows {
  import opened Collections
  import opened ChannelOrder
  import opened ChannelForest
  import opened ChannelPreorder

  function FindById(channels: seq<Channel>, id: nat): (r: Option<Channel>)
    ensures r.Some? ==> r.value in channels && r.value.id == id
    ensures r.None? ==> id !in Ids(channels)
  {
    if channels == [] then None
    else if channels[0].id == id then Some(channels[0])
    else
      var r := FindById(channels[1..], id);
      assert forall c :: c in channels ==> c == channels[0] || c in channels[1..];
      r
  }

  function VisibleSiblings(channels: seq<Channel>, visible: set<nat>, parent: nat): seq<nat> {
    Keep(SiblingOrder(channels, parent, None), visible)
  }

  ghost predicate IsAt(list: seq<nat>, i: nat, id: nat) {
    i < |list| && list[i] == id
  }

  /** What a viewer should see of a channel: the channel, ordered after its previous visible sibling. */
  ghost predicate IsRowOf(channels: seq<Channel>, visible: set<nat>, id: nat, row: Channel) {
    exists c, i :: c in channels && c.id == id && IsAt(VisibleSiblings(channels, visible, c.parent), i, id)
      && row == c.(order := PreviousIn(VisibleSiblings(channels, visible, c.parent), i))
  }

  function LastOr0(s: seq<nat>): nat {
    if s == [] then 0 else s[|s| - 1]
  }

  lemma KeepSplit(s: seq<nat>, i: nat, keep: set<nat>)
    requires i < |s| && s[i] in keep
    ensures var k := |Keep(s[..i], keep)|;
      IsAt(Keep(s, keep), k, s[i]) && PreviousIn(Keep(s, keep), k) == LastOr0(Keep(s[..i], keep))
  {
    assert s == s[..i] + s[i..];
    KeepAppend(s[..i], s[i..], keep);
  }

  lemma KeepNext(s: seq<nat>, i: nat, keep: set<nat>)
    requires i < |s|
    ensures Keep(s[..i + 1], keep) == Keep(s[..i], keep) + if s[i] in keep then [s[i]] else []
  {
    assert s[..i + 1] == s[..i] + [s[i]];
    KeepAppend(s[..i], [s[i]], keep);
  }

  method ChannelRowForVisibility(channels: seq<Channel>, id: nat, visible: set<nat>) returns (row: Option<Channel>)
    ensures row.Some? <==> id in visible && id in Ids(channels)
    ensures row.Some? ==> row.value.id == id && IsRowOf(channels, visible, id, row.value)
  {
    if id !in visible {
      return None;
    }
    var found := FindById(channels, id);
    if found.None? {
      return None;
    }
    var channel := found.value;
    var siblings := OrderedSiblingIds(channels, channel.parent, None);
    assert id in Elems(siblings) && siblings[..|siblings|] == siblings;
    var previous := 0;
    for i := 0 to |siblings|
      invariant id !in siblings[..i]
      invariant previous == LastOr0(Keep(siblings[..i], visible))
    {
      KeepNext(siblings, i, visible);
      if siblings[i] in visible {
        if siblings[i] == id {
          KeepSplit(siblings, i, visible);
          assert siblings == SiblingOrder(channels, channel.parent, None);
          assert IsAt(VisibleSiblings(channels, visible, channel.parent), |Keep(siblings[..i], visible)|, id);
          return Some(channel.(order := previous));
        }
        previous := siblings[i];
      }
    }
    assert false;
  }

  // --- All rows ---

  /** One row per channel of the preorder, none dropped. */
  ghost predicate AreRows(channels: seq<Channel>, visible: set<nat>, rows: seq<Channel>)
    requires UniqueIds(channels) && NonZeroIds(channels)
  {
    var ids := Preorder(channels, 0, visible, {});
    && |rows| == |ids|
    && forall i :: 0 <= i < |ids| ==> rows[i].id == ids[i] && IsRowOf(channels, visible, ids[i], rows[i])
  }

  /** The `filter_map` over the listed ids. */
  method CollectRows(channels: seq<Channel>, ids: seq<nat>, visible: set<nat>) returns (rows: seq<Channel>)
    requires forall id :: id in ids ==> id in visible && id in Ids(channels)
    ensures |rows| == |ids|
    ensures forall i :: 0 <= i < |ids| ==> rows[i].id == ids[i] && IsRowOf(channels, visible, ids[i], rows[i])
  {
    rows := [];
    for i := 0 to |ids|
      invariant |rows| == i
      invariant forall j :: 0 <= j < i ==> rows[j].id == ids[j] && IsRowOf(channels, visible, ids[j], rows[j])
    {
      var row := ChannelRowForVisibility(channels, ids[i], visible);
      if row.Some? {
        rows := rows + [row.value];
      }
    }
  }

  method ChannelRowsForVisibility(channels: seq<Channel>, visible: set<nat>) returns (rows: seq<Channel>)
    requires UniqueIds(channels) && NonZeroIds(channels)
    ensures AreRows(channels, visible, rows)
  {
    var ids := OrderedVisibleChannelIds(channels, 0, visible, {});
    forall id | id in ids ensures id in visible && id in Ids(channels) {
      PreorderExists(channels, visible, id);
    }
    rows := CollectRows(channels, ids, visible);
  }

  lemma PreorderExists(channels: seq<Channel>, visible: set<nat>, id: nat)
    requires UniqueIds(channels) && NonZeroIds(channels) && id in Preorder(channels, 0, visible, {})
    ensures id in visible && id in Ids(channels)
  {
    PreorderLists(channels, 0, visible, {});
    var n: nat :| ClimbsTo(channels, InSet(visible), id, 0, n);
    assert Up(channels, id, 0) == id;
  }

  /** On a forest, an ancestor-closed visible set is shown completely. */
  lemma ClosedIsShown(channels: seq<Channel>, visible: set<nat>, id: nat)
    requires Forest(channels) && AncestorClosed(channels, visible) && id in Ids(channels)
    ensures Shown(channels, visible, id, 0) <==> id in visible
  {
    if id in visible {
      var c :| c in channels && c.id == id;
      var n := Depth(channels, id);
      forall k | 0 <= k < n ensures Up(channels, id, k) in Ids(channels) && Up(channels, id, k) in visible {
        AncestorExists(channels, id, k);
        ClosedUpwards(channels, visible, id, k);
      }
      assert ClimbsTo(channels, InSet(visible), id, 0, n);
    }
    if n: nat :| ClimbsTo(channels, InSet(visible), id, 0, n) {
      assert Up(channels, id, 0) == id;
    }
  }

  lemma {:induction false} ClosedUpwards(channels: seq<Channel>, visible: set<nat>, id: nat, n: nat)
    requires Forest(channels) && AncestorClosed(channels, visible) && id in Ids(channels) && id in visible
    ensures Up(channels, id, n) == 0 || Up(channels, id, n) in visible
    decreases n
  {
    if n > 0 {
      var c :| c in channels && c.id == id;
      ParentOfMember(channels, c);
      if c.parent != 0 {
        ClosedUpwards(channels, visible, c.parent, n - 1);
      }
    }
  }

  /** The rows list every visible channel exactly once, parents and previous siblings first. */
  lemma RowsArePreorder(channels: seq<Channel>, visible: set<nat>, rows: seq<Channel>)
    requires Forest(channels) && AncestorClosed(channels, visible)
    requires AreRows(channels, visible, rows)
    ensures UniqueIds(rows) && Ids(rows) == visible * Ids(channels)
    ensures forall i :: 0 <= i < |rows| ==> rows[i].parent == 0 || rows[i].parent in Ids(rows[..i])
    ensures forall i :: 0 <= i < |rows| ==> rows[i].order == 0 || rows[i].order in Ids(rows[..i])
  {
    var ids := Preorder(channels, 0, visible, {});
    PreorderLists(channels, 0, visible, {});
    forall id ensures id in Ids(rows) <==> id in ids {
      if id in ids {
        var i :| 0 <= i < |ids| && ids[i] == id;
        assert rows[i] in rows;
      }
    }
    forall id ensures id in ids <==> id in visible && id in Ids(channels) {
      if id in ids { PreorderExists(channels, visible, id); }
      if id in Ids(channels) { ClosedIsShown(channels, visible, id); }
    }
    forall i | 0 <= i < |rows|
      ensures rows[i].parent == 0 || rows[i].parent in Ids(rows[..i])
      ensures rows[i].order == 0 || rows[i].order in Ids(rows[..i])
    {
      RowRefersBack(channels, visible, rows, i);
    }
  }

  lemma RowRefersBack(channels: seq<Channel>, visible: set<nat>, rows: seq<Channel>, i: nat)
    requires UniqueIds(channels) && NonZeroIds(channels)
    requires AreRows(channels, visible, rows) && i < |rows|
    ensures rows[i].parent == 0 || rows[i].parent in Ids(rows[..i])
    ensures rows[i].order == 0 || rows[i].order in Ids(rows[..i])
  {
    var ids := Preorder(channels, 0, visible, {});
    PreorderLists(channels, 0, visible, {});
    PreorderParentsFirst(channels, 0, visible, {});
    PrefixIds(rows, ids, i);
    assert IsRowOf(channels, visible, ids[i], rows[i]);
    var c, k :| c in channels && c.id == ids[i] && IsAt(VisibleSiblings(channels, visible, c.parent), k, ids[i])
      && rows[i] == c.(order := PreviousIn(VisibleSiblings(channels, visible, c.parent), k));
    ParentOfMember(channels, c);
    ParentIsShown(channels, visible, c);
    PreorderRestricts(channels, 0, visible, {}, c.parent);
    if k > 0 {
      KeptBefore(ids, Children(channels, c.parent), i, k);
    }
  }

  lemma ParentIsShown(channels: seq<Channel>, visible: set<nat>, c: Channel)
    requires UniqueIds(channels) && NonZeroIds(channels)
    requires c in channels && c.id in Preorder(channels, 0, visible, {})
    ensures c.parent == 0 || Shown(channels, visible, c.parent, 0)
  {
    PreorderLists(channels, 0, visible, {});
    ParentShown(channels, visible, c.id, c.parent, 0);
  }

  lemma PrefixIds(rows: seq<Channel>, ids: seq<nat>, i: nat)
    requires i <= |rows| == |ids| && forall j :: 0 <= j < |ids| ==> rows[j].id == ids[j]
    ensures forall id :: id in ids[..i] ==> id in Ids(rows[..i])
  {
    forall id | id in ids[..i] ensures id in Ids(rows[..i]) {
      var j :| 0 <= j < i && ids[j] == id;
      assert rows[..i][j] == rows[j];
    }
  }

  /** In a duplicate-free list, kept members keep their relative order. */
  lemma KeptBefore(s: seq<nat>, keep: set<nat>, i: nat, k: nat)
    requires NoDup(s) && i < |s| && 0 < k && IsAt(Keep(s, keep), k, s[i])
    ensures Keep(s, keep)[k - 1] in s[..i]
  {
    var before := Keep(s[..i], keep);
    assert Elems(Keep(s, keep)) == Elems(s) * keep && s[i] in Elems(Keep(s, keep));
    KeepSplit(s, i, keep);
    KeepNoDup(s, keep);
    assert k == |before|;
    assert s == s[..i] + s[i..];
    KeepAppend(s[..i], s[i..], keep);
    assert before[k - 1] in Elems(before);
  }

  /** Rebuilding the order from the emitted rows gives the visible part of the original order, whatever
      links were stored and whichever channels are visible. */
  lemma FilteredTreeRoundTrip(channels: seq<Channel>, visible: set<nat>, rows: seq<Channel>, parent: nat)
    requires UniqueIds(channels) && NonZeroIds(channels)
    requires AreRows(channels, visible, rows)
    requires parent == 0 || parent in Ids(rows)
    ensures SiblingOrder(rows, parent, None) == VisibleSiblings(channels, visible, parent)
  {
    var list := VisibleSiblings(channels, visible, parent);
    var ids := Preorder(channels, 0, visible, {});
    KeepNoDup(SiblingOrder(channels, parent, None), visible);
    PreorderLists(channels, 0, visible, {});
    forall c, i | c in rows && c.parent == parent && 0 <= i < |list| && c.id == list[i]
      ensures c.order == PreviousIn(list, i)
    {
      RowOrder(channels, visible, rows, c, i);
    }
    forall id ensures id in Children(rows, parent) <==> id in Elems(list) {
      RowChildren(channels, visible, rows, parent, id);
    }
    assert forall id :: id in list ==> id in Elems(list);
    LinkedOrder(rows, parent, list);
  }

  lemma RowOrder(channels: seq<Channel>, visible: set<nat>, rows: seq<Channel>, row: Channel, i: nat)
    requires UniqueIds(channels) && NonZeroIds(channels)
    requires AreRows(channels, visible, rows) && row in rows
    requires IsAt(VisibleSiblings(channels, visible, row.parent), i, row.id)
    ensures row.order == PreviousIn(VisibleSiblings(channels, visible, row.parent), i)
  {
    var list := VisibleSiblings(channels, visible, row.parent);
    KeepNoDup(SiblingOrder(channels, row.parent, None), visible);
    var k := RowPlace(channels, visible, rows, row);
    SamePlace(list, i, k, row.id);
  }

  lemma RowPlace(channels: seq<Channel>, visible: set<nat>, rows: seq<Channel>, row: Channel) returns (k: nat)
    requires UniqueIds(channels) && NonZeroIds(channels)
    requires AreRows(channels, visible, rows) && row in rows
    ensures var list := VisibleSiblings(channels, visible, row.parent);
      IsAt(list, k, row.id) && row.order == PreviousIn(list, k)
  {
    var j :| 0 <= j < |rows| && rows[j] == row;
    assert IsRowOf(channels, visible, row.id, row);
    var c, i :| c in channels && c.id == row.id && IsAt(VisibleSiblings(channels, visible, c.parent), i, row.id)
      && row == c.(order := PreviousIn(VisibleSiblings(channels, visible, c.parent), i));
    k := i;
  }

  lemma SamePlace(list: seq<nat>, i: nat, k: nat, id: nat)
    requires NoDup(list) && IsAt(list, i, id) && IsAt(list, k, id)
    ensures i == k
  {
  }

  lemma RowChildren(channels: seq<Channel>, visible: set<nat>, rows: seq<Channel>, parent: nat, id: nat)
    requires UniqueIds(channels) && NonZeroIds(channels)
    requires AreRows(channels, visible, rows)
    requires parent == 0 || parent in Ids(rows)
    ensures id in Children(rows, parent) <==> id in VisibleSiblings(channels, visible, parent)
  {
    var ids := Preorder(channels, 0, visible, {});
    PreorderLists(channels, 0, visible, {});
    if id in Children(rows, parent) {
      var row :| row in rows && row.parent == parent && row.id == id;
      var j :| 0 <= j < |rows| && rows[j] == row;
      assert IsRowOf(channels, visible, ids[j], rows[j]);
    }
    if id in VisibleSiblings(channels, visible, parent) {
      assert id in Elems(VisibleSiblings(channels, visible, parent));
      assert id in Children(channels, parent) && id in visible;
      ChildIsShown(channels, visible, rows, parent, id);
      var j :| 0 <= j < |ids| && ids[j] == id;
      assert IsRowOf(channels, visible, ids[j], rows[j]);
      var c :| c in channels && c.id == id && c.parent == rows[j].parent;
      UniqueParent(channels, id, parent, c.parent);
    }
  }

  lemma ChildIsShown(channels: seq<Channel>, visible: set<nat>, rows: seq<Channel>, parent: nat, id: nat)
    requires UniqueIds(channels) && NonZeroIds(channels)
    requires AreRows(channels, visible, rows)
    requires parent == 0 || parent in Ids(rows)
    requires id in Children(channels, parent) && id in visible
    ensures id in Preorder(channels, 0, visible, {})
  {
    PreorderLists(channels, 0, visible, {});
    if parent == 0 {
      PassesBelowByChild(channels, InSet(visible), id, 0);
      assert ShownUnder(channels, visible, id, id);
    } else {
      var j :| 0 <= j < |rows| && rows[j].id == parent;
      assert parent in Preorder(channels, 0, visible, {});
      var n: nat :| ClimbsTo(channels, InSet(visible), parent, 0, n);
      ClimbFromChild(channels, InSet(visible), id, parent, 0, n);
    }
  }
}
