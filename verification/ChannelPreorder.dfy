/** The preorder listing of the visible part of the tree. */
module ChannelPreorder {
  import opened Collections
  import opened ChannelOrder
  import opened ChannelForest

  function InSet(ids: set<nat>): nat -> bool {
    x => x in ids
  }

  /** `id` is reached from `at` over visible channels only. */
  ghost predicate Shown(channels: seq<Channel>, visible: set<nat>, id: nat, at: nat) {
    PassesBelow(channels, InSet(visible), id, at)
  }

  ghost predicate ShownUnder(channels: seq<Channel>, visible: set<nat>, id: nat, child: nat) {
    PassesUnder(channels, InSet(visible), id, child)
  }

  ghost function Preorder(channels: seq<Channel>, at: nat, visible: set<nat>, seen: set<nat>): seq<nat>
    requires UniqueIds(channels) && NonZeroIds(channels) && Tip(channels, seen, at)
    decreases Ids(channels) - seen, 1, 0
  {
    PreorderAmong(channels, SiblingOrder(channels, at, None), at, visible, seen)
  }

  ghost function PreorderAmong(channels: seq<Channel>, ids: seq<nat>, at: nat, visible: set<nat>, seen: set<nat>)
    : seq<nat>
    requires UniqueIds(channels) && NonZeroIds(channels) && Tip(channels, seen, at)
    requires Elems(ids) <= Children(channels, at)
    decreases Ids(channels) - seen, 0, |ids|
  {
    if ids == [] then [] else
      var rest := PreorderAmong(channels, ids[1..], at, visible, seen);
      if ids[0] in visible then Subtree(channels, ids[0], at, visible, seen) + rest else rest
  }

  /** A visible child followed by everything shown below it. */
  ghost function Subtree(channels: seq<Channel>, child: nat, at: nat, visible: set<nat>, seen: set<nat>): seq<nat>
    requires UniqueIds(channels) && NonZeroIds(channels) && Tip(channels, seen, at)
    requires child in Children(channels, at)
    decreases Ids(channels) - seen, 0, 0
  {
    TipDown(channels, seen, at, child);
    [child] + Preorder(channels, child, visible, seen + {child})
  }

  method OrderedVisibleChannelIds(channels: seq<Channel>, at: nat, visible: set<nat>, ghost seen: set<nat>)
    returns (ordered: seq<nat>)
    requires UniqueIds(channels) && NonZeroIds(channels) && Tip(channels, seen, at)
    ensures ordered == Preorder(channels, at, visible, seen)
    decreases Ids(channels) - seen
  {
    var ids := OrderedSiblingIds(channels, at, None);
    ghost var whole := Preorder(channels, at, visible, seen);
    ghost var rest := whole;
    assert ids[0..] == ids;
    ordered := [];
    for i := 0 to |ids|
      invariant Elems(ids[i..]) <= Children(channels, at)
      invariant rest == PreorderAmong(channels, ids[i..], at, visible, seen)
      invariant ordered + rest == whole
    {
      var id := ids[i];
      AmongStep(channels, ids, i, at, visible, seen);
      ghost var later := PreorderAmong(channels, ids[i + 1..], at, visible, seen);
      if id in visible {
        TipDown(channels, seen, at, id);
        var below := OrderedVisibleChannelIds(channels, id, visible, seen + {id});
        assert rest == ([id] + below) + later;
        Reassociate(ordered, [id], below, later);
        ordered := ordered + [id] + below;
      } else {
        assert rest == later;
      }
      rest := later;
    }
    assert ids[|ids|..] == [];
    assert ordered + [] == ordered;
  }

  lemma Reassociate<T>(a: seq<T>, b: seq<T>, c: seq<T>, d: seq<T>)
    ensures a + ((b + c) + d) == (a + b + c) + d
  {
  }

  lemma AmongStep(channels: seq<Channel>, ids: seq<nat>, i: nat, at: nat, visible: set<nat>, seen: set<nat>)
    requires UniqueIds(channels) && NonZeroIds(channels) && Tip(channels, seen, at)
    requires Elems(ids) <= Children(channels, at) && i < |ids|
    ensures ids[i] in Children(channels, at)
    ensures Elems(ids[i + 1..]) <= Children(channels, at) && Elems(ids[i..]) <= Children(channels, at)
    ensures PreorderAmong(channels, ids[i..], at, visible, seen) ==
      (if ids[i] in visible then Subtree(channels, ids[i], at, visible, seen) else [])
      + PreorderAmong(channels, ids[i + 1..], at, visible, seen)
  {
    assert Elems(ids[i..]) <= Elems(ids) && Elems(ids[i + 1..]) <= Elems(ids);
    assert ids[i] in Elems(ids);
    var rest := ids[i..];
    assert rest[0] == ids[i] && rest[1..] == ids[i + 1..];
    var tail := PreorderAmong(channels, ids[i + 1..], at, visible, seen);
    assert [] + tail == tail;
  }

  // --- Each shown channel is reached in one way only ---

  lemma {:induction false} UpStaysSeen(channels: seq<Channel>, seen: set<nat>, at: nat, id: nat, n: nat)
    requires UniqueIds(channels) && Tip(channels, seen, at) && id in seen
    ensures Up(channels, id, n) == 0 || Up(channels, id, n) in seen
    decreases n
  {
    if n > 0 && id != 0 {
      ParentOfMissingAll(channels, id);
      if id in Ids(channels) {
        var c :| c in channels && c.id == id;
        ParentOfMember(channels, c);
        if c.parent != 0 {
          UpStaysSeen(channels, seen, at, c.parent, n - 1);
        }
      }
    }
  }

  /** No channel on the way down is passed twice. */
  lemma TipNoReturn(channels: seq<Channel>, seen: set<nat>, at: nat, n: nat)
    requires UniqueIds(channels) && NonZeroIds(channels) && Tip(channels, seen, at)
    requires at != 0 && n > 0
    ensures Up(channels, at, n) != at
  {
    var last := Up(channels, at, n - 1);
    UpAdd(channels, at, n - 1, 1);
    UpStaysSeen(channels, seen, at, at, n - 1);
    ParentOfMissingAll(channels, last);
    if last in Ids(channels) {
      var c :| c in channels && c.id == last;
      ParentOfMember(channels, c);
    }
  }

  lemma ClimbUnique(channels: seq<Channel>, view: nat -> bool, id: nat, at: nat, m: nat, n: nat, seen: set<nat>)
    requires UniqueIds(channels) && NonZeroIds(channels) && Tip(channels, seen, at)
    requires ClimbsTo(channels, view, id, at, m) && ClimbsTo(channels, view, id, at, n)
    ensures m == n
  {
    var short, long := if m < n then m else n, if m < n then n else m;
    if short < long {
      assert Up(channels, id, short) in Ids(channels);
      UpAdd(channels, id, short, long - short);
      TipNoReturn(channels, seen, at, long - short);
    }
  }

  lemma ClimbUnder(channels: seq<Channel>, view: nat -> bool, id: nat, child: nat, at: nat) returns (n: nat)
    requires UniqueIds(channels) && NonZeroIds(channels)
    requires child in Children(channels, at) && PassesUnder(channels, view, id, child)
    ensures ClimbsTo(channels, view, id, at, n) && Up(channels, id, n - 1) == child
  {
    var c :| c in channels && c.parent == at && c.id == child;
    ParentOfMember(channels, c);
    assert Up(channels, child, 1) == at;
    if id == child {
      n := 1;
    } else {
      var k: nat :| ClimbsTo(channels, view, id, child, k);
      UpAdd(channels, id, k, 1);
      n := k + 1;
    }
  }

  lemma UnderOneChild(channels: seq<Channel>, visible: set<nat>, id: nat, a: nat, b: nat, at: nat, seen: set<nat>)
    requires UniqueIds(channels) && NonZeroIds(channels) && Tip(channels, seen, at)
    requires a in Children(channels, at) && ShownUnder(channels, visible, id, a)
    requires b in Children(channels, at) && ShownUnder(channels, visible, id, b)
    ensures a == b
  {
    var m := ClimbUnder(channels, InSet(visible), id, a, at);
    var n := ClimbUnder(channels, InSet(visible), id, b, at);
    ClimbUnique(channels, InSet(visible), id, at, m, n, seen);
  }

  lemma NotBelowItself(channels: seq<Channel>, visible: set<nat>, at: nat, seen: set<nat>)
    requires UniqueIds(channels) && NonZeroIds(channels) && Tip(channels, seen, at)
    ensures !Shown(channels, visible, at, at)
  {
    if n: nat :| ClimbsTo(channels, InSet(visible), at, at, n) {
      assert Up(channels, at, 0) in Ids(channels);
      TipNoReturn(channels, seen, at, n);
    }
  }

  // --- What the preorder lists ---

  lemma {:induction false} PreorderLists(channels: seq<Channel>, at: nat, visible: set<nat>, seen: set<nat>)
    requires UniqueIds(channels) && NonZeroIds(channels) && Tip(channels, seen, at)
    ensures forall id :: id in Preorder(channels, at, visible, seen) <==> Shown(channels, visible, id, at)
    ensures NoDup(Preorder(channels, at, visible, seen))
    decreases Ids(channels) - seen, 1, 0
  {
    var ids := SiblingOrder(channels, at, None);
    AmongLists(channels, ids, at, visible, seen);
    forall id ensures Shown(channels, visible, id, at) <==> ShownAmong(channels, visible, id, ids) {
      PassesBelowByChild(channels, InSet(visible), id, at);
      assert forall child :: child in ids <==> child in Elems(ids);
    }
  }

  ghost predicate ShownAmong(channels: seq<Channel>, visible: set<nat>, id: nat, children: seq<nat>) {
    exists child :: child in children && ShownUnder(channels, visible, id, child)
  }

  lemma {:induction false} AmongLists(channels: seq<Channel>, ids: seq<nat>, at: nat, visible: set<nat>, seen: set<nat>)
    requires UniqueIds(channels) && NonZeroIds(channels) && Tip(channels, seen, at)
    requires Elems(ids) <= Children(channels, at) && NoDup(ids)
    ensures forall id ::
      id in PreorderAmong(channels, ids, at, visible, seen) <==> ShownAmong(channels, visible, id, ids)
    ensures NoDup(PreorderAmong(channels, ids, at, visible, seen))
    decreases Ids(channels) - seen, 0, |ids|
  {
    if ids != [] {
      var child := ids[0];
      AmongStep(channels, ids, 0, at, visible, seen);
      assert ids[0..] == ids;
      AmongLists(channels, ids[1..], at, visible, seen);
      var rest := PreorderAmong(channels, ids[1..], at, visible, seen);
      if child in visible {
        SubtreeLists(channels, child, at, visible, seen);
        var first := Subtree(channels, child, at, visible, seen);
        forall id | id in first && id in rest ensures false {
          var other :| other in ids[1..] && ShownUnder(channels, visible, id, other);
          assert other in Elems(ids[1..]);
          UnderOneChild(channels, visible, id, child, other, at, seen);
        }
        NoDupConcat(first, rest);
      }
      assert ids == [child] + ids[1..];
    }
  }

  lemma {:induction false} SubtreeLists(channels: seq<Channel>, child: nat, at: nat, visible: set<nat>, seen: set<nat>)
    requires UniqueIds(channels) && NonZeroIds(channels) && Tip(channels, seen, at)
    requires child in Children(channels, at) && child in visible
    ensures forall id :: id in Subtree(channels, child, at, visible, seen) <==> ShownUnder(channels, visible, id, child)
    ensures NoDup(Subtree(channels, child, at, visible, seen))
    decreases Ids(channels) - seen, 0, 0
  {
    TipDown(channels, seen, at, child);
    PreorderLists(channels, child, visible, seen + {child});
    NotBelowItself(channels, visible, child, seen + {child});
    NoDupConcat([child], Preorder(channels, child, visible, seen + {child}));
  }

  // --- Order within the preorder ---

  lemma UniqueParent(channels: seq<Channel>, id: nat, p: nat, q: nat)
    requires UniqueIds(channels) && id in Children(channels, p) && id in Children(channels, q)
    ensures p == q
  {
    var c :| c in channels && c.parent == p && c.id == id;
    ParentOfMember(channels, c);
    var d :| d in channels && d.parent == q && d.id == id;
    ParentOfMember(channels, d);
  }

  lemma {:induction false} KeepNone(s: seq<nat>, keep: set<nat>)
    requires forall x :: x in s ==> x !in keep
    ensures Keep(s, keep) == []
  {
    if s != [] { KeepNone(s[1..], keep); }
  }

  /** If a child of `p` is shown below `at`, then `p` is `at` or is shown below it too. */
  lemma ParentShown(channels: seq<Channel>, visible: set<nat>, id: nat, p: nat, at: nat)
    requires UniqueIds(channels) && NonZeroIds(channels)
    requires id in Children(channels, p) && Shown(channels, visible, id, at)
    ensures p == at || Shown(channels, visible, p, at)
  {
    var n: nat :| ClimbsTo(channels, InSet(visible), id, at, n);
    var c :| c in channels && c.parent == p && c.id == id;
    ParentOfMember(channels, c);
    assert Up(channels, id, 1) == p;
    if n > 1 {
      forall k | 0 <= k < n - 1
        ensures Up(channels, p, k) in Ids(channels) && Up(channels, p, k) in visible
      {
        UpAdd(channels, id, 1, k);
      }
      UpAdd(channels, id, 1, n - 1);
      assert ClimbsTo(channels, InSet(visible), p, at, n - 1);
    }
  }

  /** Restricted to the children of any parent it covers, the preorder is that parent's visible order. */
  lemma {:induction false} PreorderRestricts(channels: seq<Channel>, at: nat, visible: set<nat>, seen: set<nat>, p: nat)
    requires UniqueIds(channels) && NonZeroIds(channels) && Tip(channels, seen, at)
    requires p == at || Shown(channels, visible, p, at)
    ensures Keep(Preorder(channels, at, visible, seen), Children(channels, p))
         == Keep(SiblingOrder(channels, p, None), visible)
    decreases Ids(channels) - seen, 1, 0
  {
    var ids := SiblingOrder(channels, at, None);
    AmongRestricts(channels, ids, at, visible, seen, p);
    if p != at {
      PassesBelowByChild(channels, InSet(visible), p, at);
      var child :| child in Children(channels, at) && ShownUnder(channels, visible, p, child);
      assert child in Elems(ids);
      assert ShownAmong(channels, visible, p, ids);
    }
  }

  lemma {:induction false} AmongRestricts(channels: seq<Channel>, ids: seq<nat>, at: nat, visible: set<nat>,
                                          seen: set<nat>, p: nat)
    requires UniqueIds(channels) && NonZeroIds(channels) && Tip(channels, seen, at)
    requires Elems(ids) <= Children(channels, at) && NoDup(ids)
    ensures Keep(PreorderAmong(channels, ids, at, visible, seen), Children(channels, p)) ==
      if p == at then Keep(ids, visible)
      else if ShownAmong(channels, visible, p, ids) then Keep(SiblingOrder(channels, p, None), visible)
      else []
    decreases Ids(channels) - seen, 0, |ids|
  {
    if ids != [] {
      var child, later := ids[0], ids[1..];
      AmongStep(channels, ids, 0, at, visible, seen);
      assert ids[0..] == ids;
      AmongRestricts(channels, later, at, visible, seen, p);
      assert ids == [child] + later;
      if child in visible {
        SubtreeRestricts(channels, child, at, visible, seen, p);
        KeepAppend(Subtree(channels, child, at, visible, seen), PreorderAmong(channels, later, at, visible, seen),
                   Children(channels, p));
        if other :| other in later && ShownUnder(channels, visible, p, other) {
          if ShownUnder(channels, visible, p, child) {
            assert other in Elems(later);
            UnderOneChild(channels, visible, p, child, other, at, seen);
          }
        }
      }
    }
  }

  lemma {:induction false} SubtreeRestricts(channels: seq<Channel>, child: nat, at: nat, visible: set<nat>,
                                            seen: set<nat>, p: nat)
    requires UniqueIds(channels) && NonZeroIds(channels) && Tip(channels, seen, at)
    requires child in Children(channels, at) && child in visible
    ensures Keep(Subtree(channels, child, at, visible, seen), Children(channels, p)) ==
      if p == at then [child]
      else if ShownUnder(channels, visible, p, child) then Keep(SiblingOrder(channels, p, None), visible)
      else []
    decreases Ids(channels) - seen, 0, 0
  {
    TipDown(channels, seen, at, child);
    var below := Preorder(channels, child, visible, seen + {child});
    PreorderLists(channels, child, visible, seen + {child});
    KeepAppend([child], below, Children(channels, p));
    if child in Children(channels, p) { UniqueParent(channels, child, p, at); }
    if p == at {
      forall id | id in below && id in Children(channels, at) ensures false {
        assert Up(channels, id, 0) == id;
        UnderOneChild(channels, visible, id, child, id, at, seen);
        NotBelowItself(channels, visible, child, seen + {child});
      }
      KeepNone(below, Children(channels, p));
    } else if ShownUnder(channels, visible, p, child) {
      PreorderRestricts(channels, child, visible, seen + {child}, p);
    } else {
      forall id | id in below && id in Children(channels, p) ensures false {
        ParentShown(channels, visible, id, p, child);
      }
      KeepNone(below, Children(channels, p));
    }
  }

  ghost predicate ParentsEarlier(channels: seq<Channel>, at: nat, ids: seq<nat>) {
    forall i :: 0 <= i < |ids| ==> Parent(channels, ids[i]) == at || Parent(channels, ids[i]) in ids[..i]
  }

  lemma ParentsEarlierConcat(channels: seq<Channel>, at: nat, s: seq<nat>, t: seq<nat>, mid: nat)
    requires ParentsEarlier(channels, at, s) && ParentsEarlier(channels, mid, t) && (mid == at || mid in s)
    ensures ParentsEarlier(channels, at, s + t)
  {
    var all := s + t;
    forall i | 0 <= i < |all| ensures Parent(channels, all[i]) == at || Parent(channels, all[i]) in all[..i] {
      if i < |s| {
        assert all[..i] == s[..i];
      } else {
        assert all[..i] == s + t[..i - |s|];
      }
    }
  }

  lemma {:induction false} PreorderParentsFirst(channels: seq<Channel>, at: nat, visible: set<nat>, seen: set<nat>)
    requires UniqueIds(channels) && NonZeroIds(channels) && Tip(channels, seen, at)
    ensures ParentsEarlier(channels, at, Preorder(channels, at, visible, seen))
    decreases Ids(channels) - seen, 1, 0
  {
    AmongParentsFirst(channels, SiblingOrder(channels, at, None), at, visible, seen);
  }

  lemma {:induction false} AmongParentsFirst(channels: seq<Channel>, ids: seq<nat>, at: nat, visible: set<nat>,
                                             seen: set<nat>)
    requires UniqueIds(channels) && NonZeroIds(channels) && Tip(channels, seen, at)
    requires Elems(ids) <= Children(channels, at)
    ensures ParentsEarlier(channels, at, PreorderAmong(channels, ids, at, visible, seen))
    decreases Ids(channels) - seen, 0, |ids|
  {
    if ids != [] {
      var child := ids[0];
      AmongStep(channels, ids, 0, at, visible, seen);
      assert ids[0..] == ids;
      AmongParentsFirst(channels, ids[1..], at, visible, seen);
      if child in visible {
        TipDown(channels, seen, at, child);
        var below := Preorder(channels, child, visible, seen + {child});
        PreorderParentsFirst(channels, child, visible, seen + {child});
        var c :| c in channels && c.parent == at && c.id == child;
        ParentOfMember(channels, c);
        ParentsEarlierConcat(channels, at, [child], below, child);
        ParentsEarlierConcat(channels, at, [child] + below, PreorderAmong(channels, ids[1..], at, visible, seen), at);
      }
    }
  }
}
