/** Sibling order. Channels are stored flat; `order` names the previous sibling (0 for the first). */
module ChannelOrder {
  import opened Collections

  datatype ChannelKind = Permanent | SemiPermanent | Temporary

  datatype Channel = Channel(id: nat, parent: nat, order: nat, kind: ChannelKind)

  predicate UniqueIds(channels: seq<Channel>) {
    forall i, j :: 0 <= i < j < |channels| ==> channels[i].id != channels[j].id
  }

  predicate NonZeroIds(channels: seq<Channel>) {
    forall c :: c in channels ==> c.id != 0
  }

  function Ids(channels: seq<Channel>): set<nat> {
    set c | c in channels :: c.id
  }

  function Children(channels: seq<Channel>, parent: nat): set<nat> {
    set c | c in channels && c.parent == parent :: c.id
  }

  predicate IsSibling(c: Channel, parent: nat, excluded: Option<nat>) {
    c.parent == parent && Some(c.id) != excluded
  }

  function Siblings(channels: seq<Channel>, parent: nat, excluded: Option<nat>): (r: seq<Channel>)
    ensures forall c :: c in r <==> c in channels && IsSibling(c, parent, excluded)
  {
    if channels == [] then [] else
      var rest := Siblings(channels[1..], parent, excluded);
      assert forall c :: c in channels <==> c == channels[0] || c in channels[1..];
      if IsSibling(channels[0], parent, excluded) then [channels[0]] + rest else rest
  }

  /** The remaining siblings that claim to come right after `previous`. */
  function Successors(siblings: seq<Channel>, remaining: set<nat>, previous: nat): set<nat> {
    set c | c in siblings && c.id in remaining && c.order == previous :: c.id
  }

  /** Follow the links; when no remaining sibling follows, list the rest ascending by id. */
  function Walk(siblings: seq<Channel>, remaining: set<nat>, previous: nat): seq<nat>
    decreases remaining
  {
    var next := Successors(siblings, remaining, previous);
    if next == {} then Ascending(remaining)
    else [Min(next)] + Walk(siblings, remaining - {Min(next)}, Min(next))
  }

  /** Whatever the links are, every remaining sibling is listed exactly once. */
  lemma {:induction false} WalkListsAll(siblings: seq<Channel>, remaining: set<nat>, previous: nat)
    ensures Elems(Walk(siblings, remaining, previous)) == remaining && NoDup(Walk(siblings, remaining, previous))
    decreases remaining
  {
    var next := Successors(siblings, remaining, previous);
    if next != {} {
      var id := Min(next);
      var rest := Walk(siblings, remaining - {id}, id);
      WalkListsAll(siblings, remaining - {id}, id);
      assert id !in Elems(rest);
      assert Elems([id] + rest) == {id} + Elems(rest);
    }
  }

  lemma WalkStep(siblings: seq<Channel>, remaining: set<nat>, previous: nat, id: nat)
    requires Successors(siblings, remaining, previous) == {id}
    ensures Walk(siblings, remaining, previous) == [id] + Walk(siblings, remaining - {id}, id)
  {
    assert Min({id}) == id;
  }

  function SiblingOrder(channels: seq<Channel>, parent: nat, excluded: Option<nat>): (r: seq<nat>)
    ensures NoDup(r)
    ensures Elems(r) == set c | c in channels && IsSibling(c, parent, excluded) :: c.id
    ensures excluded.None? ==> Elems(r) == Children(channels, parent)
  {
    var siblings := Siblings(channels, parent, excluded);
    WalkListsAll(siblings, Ids(siblings), 0);
    Walk(siblings, Ids(siblings), 0)
  }

  /** The order is rebuilt by a loop that shrinks the set of remaining siblings. */
  method OrderedSiblingIds(channels: seq<Channel>, parent: nat, excluded: Option<nat>)
    returns (ordered: seq<nat>)
    ensures ordered == SiblingOrder(channels, parent, excluded)
  {
    var siblings := Siblings(channels, parent, excluded);
    var remaining := Ids(siblings);
    ordered := [];
    var previous := 0;
    var next := Successors(siblings, remaining, previous);
    while next != {}
      invariant next == Successors(siblings, remaining, previous)
      invariant ordered + Walk(siblings, remaining, previous) == Walk(siblings, Ids(siblings), 0)
      decreases remaining
    {
      var id := Min(next);
      ordered := ordered + [id];
      remaining := remaining - {id};
      previous := id;
      next := Successors(siblings, remaining, previous);
    }
    ordered := ordered + Ascending(remaining);
  }

  // --- Well-linked sibling lists ---

  function PreviousIn(list: seq<nat>, i: nat): nat
    requires i <= |list|
  {
    if i == 0 then 0 else list[i - 1]
  }

  /** The children of `parent` are exactly `list`, and each one's `order` names its predecessor there. */
  ghost predicate WellLinked(channels: seq<Channel>, parent: nat, list: seq<nat>) {
    && NoDup(list) && 0 !in list
    && Elems(list) == Children(channels, parent)
    && forall c, i {:trigger c in channels, PreviousIn(list, i)} ::
         c in channels && c.parent == parent && 0 <= i < |list| && c.id == list[i]
         ==> c.order == PreviousIn(list, i)
  }

  /** `siblings` carries the links of `list`, except that the channel at index `gap` is missing
      (no gap when `gap == |list|`). */
  ghost predicate LinkedWithGap(siblings: seq<Channel>, list: seq<nat>, gap: nat)
    requires gap <= |list|
  {
    && NoDup(list) && 0 !in list
    && Ids(siblings) == From(list, 0, gap)
    && (forall c, i {:trigger c in siblings, PreviousIn(list, i)} ::
         c in siblings && 0 <= i < |list| && c.id == list[i] ==> c.order == PreviousIn(list, i))
  }

  function After(list: seq<nat>, gap: nat): set<nat> {
    set i | gap < i < |list| :: list[i]
  }

  function From(list: seq<nat>, j: nat, gap: nat): set<nat> {
    set i | j <= i < |list| && i != gap :: list[i]
  }

  lemma StopAtGap(siblings: seq<Channel>, list: seq<nat>, gap: nat)
    requires gap <= |list| && LinkedWithGap(siblings, list, gap)
    ensures Walk(siblings, From(list, gap, gap), PreviousIn(list, gap)) == Ascending(After(list, gap))
  {
    forall c | c in siblings && c.id in From(list, gap, gap) && c.order == PreviousIn(list, gap) ensures false {
      var i :| gap < i < |list| && list[i] == c.id;
      var before := PreviousIn(list, i);
    }
    assert Successors(siblings, From(list, gap, gap), PreviousIn(list, gap)) == {};
    assert From(list, gap, gap) == After(list, gap);
  }

  lemma StepToNext(siblings: seq<Channel>, list: seq<nat>, j: nat, gap: nat)
    requires j < gap <= |list| && LinkedWithGap(siblings, list, gap)
    ensures Walk(siblings, From(list, j, gap), PreviousIn(list, j))
         == [list[j]] + Walk(siblings, From(list, j + 1, gap), PreviousIn(list, j + 1))
  {
    var remaining := From(list, j, gap);
    forall c | c in siblings && c.id in remaining && c.order == PreviousIn(list, j) ensures c.id == list[j] {
      var i :| j <= i < |list| && list[i] == c.id;
      var before := PreviousIn(list, i);
    }
    assert list[j] in Ids(siblings);
    var c :| c in siblings && c.id == list[j];
    assert c.id in remaining && c.order == PreviousIn(list, j);
    assert Successors(siblings, remaining, PreviousIn(list, j)) == {list[j]};
    assert remaining - {list[j]} == From(list, j + 1, gap);
    WalkStep(siblings, remaining, PreviousIn(list, j), list[j]);
  }

  function Stretch(list: seq<nat>, j: nat, gap: nat, later: seq<nat>): seq<nat>
    requires j <= gap <= |list|
    decreases gap - j
  {
    if j == gap then later else [list[j]] + Stretch(list, j + 1, gap, later)
  }

  lemma {:induction false} StretchIsSlice(list: seq<nat>, j: nat, gap: nat, later: seq<nat>)
    requires j <= gap <= |list|
    ensures Stretch(list, j, gap, later) == list[j..gap] + later
    decreases gap - j
  {
    if j < gap {
      StretchIsSlice(list, j + 1, gap, later);
      assert [list[j]] + list[j + 1..gap] == list[j..gap];
    }
  }

  /** From index `j`, the walk follows the list up to the gap and then lists what is after it. */
  lemma {:induction false} WalkToGap(siblings: seq<Channel>, list: seq<nat>, j: nat, gap: nat)
    requires j <= gap <= |list| && LinkedWithGap(siblings, list, gap)
    ensures Walk(siblings, From(list, j, gap), PreviousIn(list, j))
         == Stretch(list, j, gap, Ascending(After(list, gap)))
    decreases gap - j
  {
    if j == gap {
      StopAtGap(siblings, list, gap);
    } else {
      WalkToGap(siblings, list, j + 1, gap);
      StepToNext(siblings, list, j, gap);
    }
  }

  lemma WalkUpToGap(siblings: seq<Channel>, list: seq<nat>, gap: nat)
    requires gap <= |list|
    requires LinkedWithGap(siblings, list, gap)
    ensures Walk(siblings, From(list, 0, gap), 0) == list[0..gap] + Ascending(After(list, gap))
  {
    WalkToGap(siblings, list, 0, gap);
    StretchIsSlice(list, 0, gap, Ascending(After(list, gap)));
  }

  /** Following the links of a well-linked list gives the list itself. */
  lemma LinkedOrder(channels: seq<Channel>, parent: nat, list: seq<nat>)
    requires WellLinked(channels, parent, list)
    ensures SiblingOrder(channels, parent, None) == list
  {
    var siblings := Siblings(channels, parent, None);
    var n := |list|;
    assert forall c :: c in siblings ==> c.id in Elems(list);
    assert Ids(siblings) == From(list, 0, n) by {
      assert forall i :: 0 <= i < n ==> list[i] in Elems(list);
    }
    WalkUpToGap(siblings, list, n);
    assert After(list, n) == {};
    assert list[0..n] + [] == list;
  }

  // --- Relinking ---

  /** Index of the first channel with this id and parent. */
  function Find(channels: seq<Channel>, id: nat, parent: nat): (r: Option<nat>)
    ensures r.Some? ==> r.value < |channels| && channels[r.value].id == id && channels[r.value].parent == parent
    ensures r.None? ==> forall c :: c in channels ==> !(c.id == id && c.parent == parent)
  {
    if channels == [] then None
    else if channels[0].id == id && channels[0].parent == parent then Some(0)
    else
      match Find(channels[1..], id, parent)
      case Some(i) => Some(i + 1)
      case None => None
  }

  function Relinked(channels: seq<Channel>, parent: nat, ids: seq<nat>, previous: nat): (r: seq<Channel>)
    ensures |r| == |channels|
    ensures forall i :: 0 <= i < |r| ==>
      r[i].id == channels[i].id && r[i].parent == channels[i].parent && r[i].kind == channels[i].kind
    ensures forall i :: 0 <= i < |r| && (channels[i].parent != parent || channels[i].id !in ids) ==> r[i] == channels[i]
    decreases |ids|
  {
    if ids == [] then channels else
      match Find(channels, ids[0], parent)
      case None => Relinked(channels, parent, ids[1..], previous)
      case Some(i) => Relinked(channels[i := channels[i].(order := previous)], parent, ids[1..], ids[0])
  }

  /** The links are written back in place, one channel at a time. */
  method RelinkSiblingOrders(channels: array<Channel>, parent: nat, ids: seq<nat>)
    modifies channels
    ensures channels[..] == Relinked(old(channels[..]), parent, ids, 0)
  {
    var previous := 0;
    for k := 0 to |ids|
      invariant Relinked(channels[..], parent, ids[k..], previous) == Relinked(old(channels[..]), parent, ids, 0)
    {
      var remaining := ids[k..];
      assert remaining[0] == ids[k] && remaining[1..] == ids[k + 1..];
      match Find(channels[..], ids[k], parent)
      case None =>
      case Some(i) =>
        ghost var before := channels[..];
        channels[i] := channels[i].(order := previous);
        assert channels[..] == before[i := before[i].(order := previous)];
        previous := ids[k];
    }
    assert ids[|ids|..] == [];
  }

  lemma {:induction false} RelinkedOrderAt(channels: seq<Channel>, parent: nat, ids: seq<nat>, previous: nat,
                                           i: nat, k: nat)
    requires UniqueIds(channels) && NoDup(ids)
    requires forall id :: id in ids ==> id in Children(channels, parent)
    requires i < |channels| && k < |ids| && channels[i].id == ids[k]
    ensures Relinked(channels, parent, ids, previous)[i].order == if k == 0 then previous else ids[k - 1]
    decreases |ids|
  {
    assert ids[0] in Children(channels, parent);
    var i0 := Find(channels, ids[0], parent).value;
    var channels' := channels[i0 := channels[i0].(order := previous)];
    SameShapeIds(channels, channels', parent);
    if k == 0 {
      assert i == i0 && ids[0] !in ids[1..];
    } else {
      RelinkedOrderAt(channels', parent, ids[1..], ids[0], i, k - 1);
    }
  }

  /** Relinking with any permutation of the siblings makes that permutation the order. */
  lemma RelinkInvertsOrdering(channels: seq<Channel>, parent: nat, ids: seq<nat>)
    requires UniqueIds(channels) && NonZeroIds(channels)
    requires NoDup(ids) && Elems(ids) == Elems(SiblingOrder(channels, parent, None))
    ensures WellLinked(Relinked(channels, parent, ids, 0), parent, ids)
    ensures SiblingOrder(Relinked(channels, parent, ids, 0), parent, None) == ids
  {
    var result := Relinked(channels, parent, ids, 0);
    assert Elems(ids) == Children(channels, parent);
    assert forall id :: id in ids ==> id in Elems(ids);
    SameShapeIds(channels, result, parent);
    forall c, i | c in result && c.parent == parent && 0 <= i < |ids| && c.id == ids[i]
      ensures c.order == PreviousIn(ids, i)
    {
      var k :| 0 <= k < |result| && result[k] == c;
      RelinkedOrderAt(channels, parent, ids, 0, k, i);
    }
    assert WellLinked(result, parent, ids);
    LinkedOrder(result, parent, ids);
  }

  lemma SameShapeIds(channels: seq<Channel>, result: seq<Channel>, parent: nat)
    requires |result| == |channels|
    requires forall i :: 0 <= i < |result| ==>
      result[i].id == channels[i].id && result[i].parent == channels[i].parent
    ensures Children(result, parent) == Children(channels, parent)
    ensures Ids(result) == Ids(channels)
  {
    forall c | c in result ensures exists d :: d in channels && d.id == c.id && d.parent == c.parent {
      var i :| 0 <= i < |result| && result[i] == c;
      assert channels[i] in channels;
    }
    forall d | d in channels ensures exists c :: c in result && d.id == c.id && d.parent == c.parent {
      var i :| 0 <= i < |channels| && channels[i] == d;
      assert result[i] in result;
    }
  }

  lemma {:induction false} SiblingsFrame(channels: seq<Channel>, result: seq<Channel>, parent: nat,
                                         excluded: Option<nat>)
    requires |result| == |channels|
    requires forall i :: 0 <= i < |result| ==> result[i].parent == channels[i].parent
    requires forall i :: 0 <= i < |result| && channels[i].parent == parent ==> result[i] == channels[i]
    ensures Siblings(result, parent, excluded) == Siblings(channels, parent, excluded)
  {
    if channels != [] {
      SiblingsFrame(channels[1..], result[1..], parent, excluded);
    }
  }

  /** Ids that name no child of the parent are passed over. */
  lemma {:induction false} RelinkPassesOver(channels: seq<Channel>, parent: nat, ids: seq<nat>, previous: nat)
    ensures Relinked(channels, parent, ids, previous)
         == Relinked(channels, parent, Keep(ids, Children(channels, parent)), previous)
    decreases |ids|
  {
    if ids != [] {
      var known := Children(channels, parent);
      match Find(channels, ids[0], parent)
      case None =>
        RelinkPassesOver(channels, parent, ids[1..], previous);
      case Some(i) =>
        var channels' := channels[i := channels[i].(order := previous)];
        assert channels[i] in channels && ids[0] in known;
        SameShapeIds(channels, channels', parent);
        RelinkPassesOver(channels', parent, ids[1..], ids[0]);
        assert Keep(ids, known)[1..] == Keep(ids[1..], known);
    }
  }

  /** Relinking one parent's children leaves every other parent's order alone. */
  lemma RelinkFrame(channels: seq<Channel>, parent: nat, ids: seq<nat>, other: nat, excluded: Option<nat>)
    requires other != parent
    ensures SiblingOrder(Relinked(channels, parent, ids, 0), other, excluded) == SiblingOrder(channels, other, excluded)
  {
    SiblingsFrame(channels, Relinked(channels, parent, ids, 0), other, excluded);
  }

  /** Nor does it touch their stored links. */
  lemma RelinkKeepsLinks(channels: seq<Channel>, parent: nat, ids: seq<nat>, other: nat, list: seq<nat>)
    requires other != parent && WellLinked(channels, other, list)
    ensures WellLinked(Relinked(channels, parent, ids, 0), other, list)
  {
    var result := Relinked(channels, parent, ids, 0);
    SameShapeIds(channels, result, other);
    forall c, i | c in result && c.parent == other && 0 <= i < |list| && c.id == list[i]
      ensures c.order == PreviousIn(list, i)
    {
      var k :| 0 <= k < |result| && result[k] == c;
      assert channels[k] == c && channels[k] in channels;
      var before := PreviousIn(list, i);
    }
  }

  // --- Deleting a channel ---

  function Without(channels: seq<Channel>, i: nat): seq<Channel>
    requires i < |channels|
  {
    channels[..i] + channels[i + 1..]
  }

  function RemovedAndRelinked(channels: seq<Channel>, i: nat): seq<Channel>
    requires i < |channels|
  {
    var rest := Without(channels, i);
    Relinked(rest, channels[i].parent, SiblingOrder(rest, channels[i].parent, None), 0)
  }

  lemma WithoutMembers(channels: seq<Channel>, i: nat)
    requires i < |channels| && UniqueIds(channels)
    ensures UniqueIds(Without(channels, i))
    ensures forall c :: c in Without(channels, i) <==> c in channels && c.id != channels[i].id
    ensures Ids(Without(channels, i)) == Ids(channels) - {channels[i].id}
  {
    var rest := Without(channels, i);
    forall c | c in channels && c.id != channels[i].id ensures c in rest {
      var k :| 0 <= k < |channels| && channels[k] == c;
      assert c == rest[if k < i then k else k - 1];
    }
    forall c | c in rest ensures c in channels && c.id != channels[i].id {
      var k :| 0 <= k < |rest| && rest[k] == c;
      assert c == channels[if k < i then k else k + 1];
    }
  }

  /** Removing a channel keeps the siblings before it and lists the later ones ascending by id,
      because the link to the removed channel is broken. */
  lemma OrderAfterRemoval(channels: seq<Channel>, i: nat, list: seq<nat>, k: nat)
    requires UniqueIds(channels) && i < |channels| && k < |list|
    requires WellLinked(channels, channels[i].parent, list) && list[k] == channels[i].id
    ensures SiblingOrder(Without(channels, i), channels[i].parent, None) == list[..k] + Ascending(After(list, k))
  {
    var parent := channels[i].parent;
    var rest := Without(channels, i);
    WithoutMembers(channels, i);
    var siblings := Siblings(rest, parent, None);
    assert Ids(siblings) == From(list, 0, k) by {
      forall m | 0 <= m < |list| && m != k ensures list[m] in Ids(siblings) {
        assert list[m] in Elems(list);
        var c :| c in channels && c.parent == parent && c.id == list[m];
        assert c in siblings;
      }
      forall c | c in siblings ensures c.id in From(list, 0, k) {
        assert c.id in Elems(list);
      }
    }
    WalkUpToGap(siblings, list, k);
    assert list[0..k] == list[..k];
  }

  lemma AfterIsTail(list: seq<nat>, k: nat)
    requires k < |list|
    ensures After(list, k) == Elems(list[k + 1..])
  {
    var tail := list[k + 1..];
    forall x | x in After(list, k) ensures x in tail {
      var m :| k < m < |list| && list[m] == x;
      assert tail[m - k - 1] == x;
    }
  }

  lemma RemovalKeepsLinks(channels: seq<Channel>, i: nat, list: seq<nat>, k: nat)
    requires UniqueIds(channels) && NonZeroIds(channels) && i < |channels| && k < |list|
    requires WellLinked(channels, channels[i].parent, list) && list[k] == channels[i].id
    ensures var after := list[..k] + Ascending(After(list, k));
      && WellLinked(RemovedAndRelinked(channels, i), channels[i].parent, after)
      && SiblingOrder(RemovedAndRelinked(channels, i), channels[i].parent, None) == after
    ensures SiblingOrder(RemovedAndRelinked(channels, i), channels[i].parent, None) == list[..k] + list[k + 1..]
       <==> IsAscending(list[k + 1..])
  {
    var parent := channels[i].parent;
    var rest := Without(channels, i);
    OrderAfterRemoval(channels, i, list, k);
    WithoutMembers(channels, i);
    RelinkInvertsOrdering(rest, parent, SiblingOrder(rest, parent, None));
    var tail := list[k + 1..];
    AfterIsTail(list, k);
    if IsAscending(tail) {
      AscendingUnique(tail);
    }
    if list[..k] + Ascending(After(list, k)) == list[..k] + tail {
      assert (list[..k] + Ascending(After(list, k)))[k..] == (list[..k] + tail)[k..];
      assert Ascending(After(list, k)) == tail;
    }
  }

  /** Three root channels, linked 1, 3, 2. */
  function LinkedExample(): seq<Channel> {
    [Channel(1, 0, 0, Permanent), Channel(3, 0, 1, Permanent), Channel(2, 0, 3, Permanent)]
  }

  lemma ExampleIsLinked()
    ensures UniqueIds(LinkedExample()) && NonZeroIds(LinkedExample()) && WellLinked(LinkedExample(), 0, [1, 3, 2])
  {
    var channels, list: seq<nat> := LinkedExample(), [1, 3, 2];
    assert channels[0] in channels && channels[1] in channels && channels[2] in channels;
    forall id ensures id in Elems(list) <==> id in Children(channels, 0) {
      if id in Elems(list) { assert id == list[0] || id == list[1] || id == list[2]; }
    }
  }

  lemma SortedPair(list: seq<nat>, sorted: seq<nat>)
    requires |list| == 3 && |sorted| == 2
    requires sorted[0] == list[2] && sorted[1] == list[1] && list[2] < list[1]
    ensures list[..0] + Ascending(After(list, 0)) == sorted
  {
    assert After(list, 0) == {list[2], list[1]} == Elems(sorted) by {
      assert forall x :: x in sorted <==> x == sorted[0] || x == sorted[1];
    }
    AscendingUnique(sorted);
  }

  /** When the first of them is deleted, the other two change places. */
  lemma DeletionLosesOrder()
    ensures SiblingOrder(LinkedExample(), 0, None) == [1, 3, 2]
    ensures SiblingOrder(RemovedAndRelinked(LinkedExample(), 0), 0, None) == [2, 3]
  {
    ExampleIsLinked();
    SortedPair([1, 3, 2], [2, 3]);
    LinkedOrder(LinkedExample(), 0, [1, 3, 2]);
    RemovalKeepsLinks(LinkedExample(), 0, [1, 3, 2], 0);
  }

  lemma {:induction false} SiblingsAppend(a: seq<Channel>, b: seq<Channel>, parent: nat, excluded: Option<nat>)
    ensures Siblings(a + b, parent, excluded) == Siblings(a, parent, excluded) + Siblings(b, parent, excluded)
  {
    if a == [] {
      assert a + b == b;
    } else {
      assert (a + b)[1..] == a[1..] + b;
      SiblingsAppend(a[1..], b, parent, excluded);
    }
  }

  lemma WithoutSiblings(channels: seq<Channel>, i: nat, other: nat, excluded: Option<nat>)
    requires i < |channels| && !IsSibling(channels[i], other, excluded)
    ensures Siblings(Without(channels, i), other, excluded) == Siblings(channels, other, excluded)
  {
    var before, removed, later := channels[..i], [channels[i]], channels[i + 1..];
    SiblingsAppend(before, later, other, excluded);
    SiblingsAppend(before, removed + later, other, excluded);
    SiblingsAppend(removed, later, other, excluded);
    assert channels == before + (removed + later);
    assert Siblings(removed, other, excluded) == [] by { assert removed[1..] == []; }
    var none: seq<Channel> := [];
    assert none + Siblings(later, other, excluded) == Siblings(later, other, excluded);
  }

  lemma RemovalFrame(channels: seq<Channel>, i: nat, other: nat)
    requires i < |channels| && channels[i].parent != other
    ensures SiblingOrder(RemovedAndRelinked(channels, i), other, None) == SiblingOrder(channels, other, None)
  {
    var rest := Without(channels, i);
    RelinkFrame(rest, channels[i].parent, SiblingOrder(rest, channels[i].parent, None), other, None);
    WithoutSiblings(channels, i, other, None);
  }
}
