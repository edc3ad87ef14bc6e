/** Client counts per channel and per channel family (a channel with everything below it). */
module FamilyCounts {
  import opened Collections
  import opened ChannelOrder
  import opened ChannelForest
  import opened Records

  function ClientsIn(clients: map<nat, OnlineClient>, server: nat, channel: nat): set<nat> {
    set k | k in clients && clients[k].server == server && clients[k].channel == channel
  }

  ghost function Family(clients: map<nat, OnlineClient>, server: nat, channels: seq<Channel>, channel: nat): set<nat> {
    set k | k in clients && clients[k].server == server
      && (clients[k].channel == channel || IsAncestorOrSelf(channels, channel, clients[k].channel))
  }

  lemma EveryIdReachesRoot(channels: seq<Channel>, id: nat)
    requires Forest(channels)
    ensures ReachesRoot(channels, id)
  {
    if id in Ids(channels) {
      var c :| c in channels && c.id == id;
    } else {
      ParentOfMissing(channels, id);
      assert Up(channels, id, 1) == 0;
    }
  }

  method FamilyClientCount(clients: map<nat, OnlineClient>, server: nat, channels: seq<Channel>, channel: nat)
    returns (count: nat)
    requires Forest(channels)
    ensures count == |Family(clients, server, channels, channel)|
  {
    var todo := clients.Keys;
    ghost var counted: set<nat> := {};
    count := 0;
    while todo != {}
      invariant todo <= clients.Keys && count == |counted|
      invariant forall k :: k in counted <==> k in Family(clients, server, channels, channel) && k !in todo
    {
      var k :| k in todo;
      var client := clients[k];
      var member := client.server == server && client.channel == channel;
      if client.server == server && client.channel != channel {
        EveryIdReachesRoot(channels, client.channel);
        member := ChannelIsDescendant(channels, client.channel, channel);
      }
      if member {
        count := count + 1;
        counted := counted + {k};
      }
      todo := todo - {k};
    }
    assert counted == Family(clients, server, channels, channel);
  }

  function FamilyUnion(families: seq<set<nat>>): set<nat> {
    if families == [] then {} else families[0] + FamilyUnion(families[1..])
  }

  function SumOfSizes(families: seq<set<nat>>): nat {
    if families == [] then 0 else |families[0]| + SumOfSizes(families[1..])
  }

  lemma {:induction false} DisjointSizesAdd(families: seq<set<nat>>)
    requires forall i, j :: 0 <= i < j < |families| ==> families[i] !! families[j]
    ensures forall x :: x in FamilyUnion(families) <==> exists i :: 0 <= i < |families| && x in families[i]
    ensures |FamilyUnion(families)| == SumOfSizes(families)
  {
    if families != [] {
      var rest := families[1..];
      DisjointSizesAdd(rest);
      assert families[0] !! FamilyUnion(rest) by {
        forall x | x in FamilyUnion(rest) ensures x !in families[0] {
          var i :| 0 <= i < |rest| && x in rest[i];
          assert rest[i] == families[i + 1];
        }
      }
      forall x ensures x in FamilyUnion(families) <==> exists i :: 0 <= i < |families| && x in families[i] {
        if i :| 0 <= i < |rest| && x in rest[i] { assert x in families[i + 1]; }
        if i :| 0 <= i < |families| && x in families[i] {
          if i > 0 { assert x in rest[i - 1]; }
        }
      }
    }
  }

  ghost function ChildFamilies(clients: map<nat, OnlineClient>, server: nat, channels: seq<Channel>, at: nat)
    : seq<set<nat>>
  {
    var ids := SiblingOrder(channels, at, None);
    seq(|ids|, i requires 0 <= i < |ids| => Family(clients, server, channels, ids[i]))
  }

  /** No channel is below two siblings. */
  lemma SiblingFamiliesDisjoint(channels: seq<Channel>, at: nat, a: nat, b: nat, id: nat)
    requires Forest(channels) && a in Children(channels, at) && b in Children(channels, at)
    requires IsAncestorOrSelf(channels, a, id) && IsAncestorOrSelf(channels, b, id)
    ensures a == b
  {
    var m: nat :| Up(channels, id, m) == a;
    var n: nat :| Up(channels, id, n) == b;
    if m < n {
      SiblingNotAbove(channels, at, a, b, n - m);
      UpAdd(channels, id, m, n - m);
    } else if n < m {
      SiblingNotAbove(channels, at, b, a, m - n);
      UpAdd(channels, id, n, m - n);
    }
  }

  lemma SiblingNotAbove(channels: seq<Channel>, at: nat, a: nat, b: nat, k: nat)
    requires Forest(channels) && a in Children(channels, at) && b in Children(channels, at) && k > 0
    ensures Up(channels, a, k) != b
  {
    var c :| c in channels && c.parent == at && c.id == a;
    ParentOfMember(channels, c);
    var d :| d in channels && d.parent == at && d.id == b;
    ParentOfMember(channels, d);
    if Up(channels, a, k) == b {
      assert Up(channels, at, k - 1) == b;
      UpAdd(channels, at, k - 1, 1);
      assert Up(channels, at, k) == at;
      EveryIdReachesRoot(channels, at);
      if at != 0 { NoCycle(channels, at, k); }
    }
  }

  /** A channel strictly below `at` (or any channel, when `at` is the root) is below one of its children. */
  lemma BelowSomeChild(channels: seq<Channel>, at: nat, id: nat)
    requires Forest(channels)
    requires if at == 0 then id in Ids(channels) else id != at && IsAncestorOrSelf(channels, at, id)
    ensures exists child :: child in Children(channels, at) && IsAncestorOrSelf(channels, child, id)
  {
    EveryIdReachesRoot(channels, id);
    var n: nat;
    if at == 0 {
      n := Depth(channels, id);
      AncestorExists(channels, id, n - 1);
    } else {
      n :| Up(channels, id, n) == at;
    }
    var child := Up(channels, id, n - 1);
    UpAdd(channels, id, n - 1, 1);
    ParentOfMissingAll(channels, child);
    var c :| c in channels && c.id == child;
    ParentOfMember(channels, c);
    assert child in Children(channels, at);
  }

  lemma AboveChild(channels: seq<Channel>, at: nat, child: nat, id: nat)
    requires Forest(channels) && child in Children(channels, at) && IsAncestorOrSelf(channels, child, id)
    ensures at != 0 ==> IsAncestorOrSelf(channels, at, id) && id != at
    ensures at == 0 ==> id in Ids(channels)
  {
    var n: nat :| Up(channels, id, n) == child;
    UpAdd(channels, id, n, 1);
    var c :| c in channels && c.parent == at && c.id == child;
    ParentOfMember(channels, c);
    EveryIdReachesRoot(channels, id);
    if id !in Ids(channels) {
      ParentOfMissing(channels, id);
      RootOrSelf(channels, id, n);
    }
    assert Up(channels, id, n + 1) == at;
    if at != 0 { NoCycleAt(channels, id, at, n); }
  }

  lemma RootOrSelf(channels: seq<Channel>, id: nat, n: nat)
    requires Parent(channels, id) == 0
    ensures n > 0 ==> Up(channels, id, n) == 0
  {
  }

  lemma NoCycleAt(channels: seq<Channel>, id: nat, at: nat, n: nat)
    requires at != 0 && ReachesRoot(channels, id) && Up(channels, id, n + 1) == at
    ensures id != at
  {
    if id == at { NoCycle(channels, id, n + 1); }
  }

  ghost predicate StrictlyBelow(channels: seq<Channel>, at: nat, id: nat) {
    if at == 0 then id in Ids(channels) else id != at && IsAncestorOrSelf(channels, at, id)
  }

  ghost function ClientsBelow(clients: map<nat, OnlineClient>, server: nat, channels: seq<Channel>, at: nat): set<nat> {
    set k | k in clients && clients[k].server == server && StrictlyBelow(channels, at, clients[k].channel)
  }

  lemma InFamily(clients: map<nat, OnlineClient>, server: nat, channels: seq<Channel>, channel: nat, k: nat)
    requires channel != 0
    ensures k in Family(clients, server, channels, channel) <==>
      k in clients && clients[k].server == server && IsAncestorOrSelf(channels, channel, clients[k].channel)
  {
    if k in clients {
      assert Up(channels, clients[k].channel, 0) == clients[k].channel;
    }
  }

  lemma ChildFamiliesDisjoint(clients: map<nat, OnlineClient>, server: nat, channels: seq<Channel>, at: nat, i: nat,
                              j: nat)
    requires Forest(channels) && i < j < |ChildFamilies(clients, server, channels, at)|
    ensures ChildFamilies(clients, server, channels, at)[i] !! ChildFamilies(clients, server, channels, at)[j]
  {
    var ids := SiblingOrder(channels, at, None);
    var families := ChildFamilies(clients, server, channels, at);
    assert ids[i] in Elems(ids) && ids[j] in Elems(ids);
    forall k | k in families[i] && k in families[j] ensures false {
      InFamily(clients, server, channels, ids[i], k);
      InFamily(clients, server, channels, ids[j], k);
      SiblingFamiliesDisjoint(channels, at, ids[i], ids[j], clients[k].channel);
    }
  }

  lemma InSomeChildFamily(clients: map<nat, OnlineClient>, server: nat, channels: seq<Channel>, at: nat, k: nat)
    requires Forest(channels)
    ensures var families := ChildFamilies(clients, server, channels, at);
      k in ClientsBelow(clients, server, channels, at) <==> exists i :: 0 <= i < |families| && k in families[i]
  {
    var ids := SiblingOrder(channels, at, None);
    var families := ChildFamilies(clients, server, channels, at);
    if k in ClientsBelow(clients, server, channels, at) {
      BelowSomeChild(channels, at, clients[k].channel);
      var child :| child in Children(channels, at) && IsAncestorOrSelf(channels, child, clients[k].channel);
      assert child in Elems(ids);
      var i :| 0 <= i < |ids| && ids[i] == child;
      InFamily(clients, server, channels, child, k);
      assert k in families[i];
    }
    if i :| 0 <= i < |families| && k in families[i] {
      assert ids[i] in Elems(ids);
      InFamily(clients, server, channels, ids[i], k);
      AboveChild(channels, at, ids[i], clients[k].channel);
    }
  }

  lemma ChildFamiliesCover(clients: map<nat, OnlineClient>, server: nat, channels: seq<Channel>, at: nat)
    requires Forest(channels)
    ensures SumOfSizes(ChildFamilies(clients, server, channels, at)) == |ClientsBelow(clients, server, channels, at)|
  {
    var families := ChildFamilies(clients, server, channels, at);
    forall i, j | 0 <= i < j < |families| ensures families[i] !! families[j] {
      ChildFamiliesDisjoint(clients, server, channels, at, i, j);
    }
    DisjointSizesAdd(families);
    forall k ensures k in FamilyUnion(families) <==> k in ClientsBelow(clients, server, channels, at) {
      InSomeChildFamily(clients, server, channels, at, k);
    }
    assert FamilyUnion(families) == ClientsBelow(clients, server, channels, at);
  }

  /** A channel's family count is its own client count plus its children's family counts. */
  lemma FamilyCountConserved(clients: map<nat, OnlineClient>, server: nat, channels: seq<Channel>, channel: nat)
    requires Forest(channels) && channel != 0
    ensures |Family(clients, server, channels, channel)| ==
      |ClientsIn(clients, server, channel)| + SumOfSizes(ChildFamilies(clients, server, channels, channel))
  {
    ChildFamiliesCover(clients, server, channels, channel);
    var own, below := ClientsIn(clients, server, channel), ClientsBelow(clients, server, channels, channel);
    assert Family(clients, server, channels, channel) == own + below;
    assert own !! below;
    assert |own + below| == |own| + |below|;
  }

  /** The roots' family counts add up to all clients placed in the tree. */
  lemma RootFamiliesCoverAll(clients: map<nat, OnlineClient>, server: nat, channels: seq<Channel>)
    requires Forest(channels)
    ensures SumOfSizes(ChildFamilies(clients, server, channels, 0)) ==
      |set k | k in clients && clients[k].server == server && clients[k].channel in Ids(channels)|
  {
    ChildFamiliesCover(clients, server, channels, 0);
    assert (set k | k in clients && clients[k].server == server && clients[k].channel in Ids(channels))
        == ClientsBelow(clients, server, channels, 0);
  }
}
