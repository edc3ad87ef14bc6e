/** Replicating the server's presence table to sessions that each see only some channels. */
module Presence {
  import opened Collections

  type Attributes = map<string, string>

  datatype Presence = Presence(client: nat, server: nat, channel: nat, state: Attributes)

  datatype Broadcast =
    | PeerEnter(server: nat, excluded: Option<nat>, presence: Presence, from: Option<nat>)
    | PeerMove(server: nat, excluded: Option<nat>, presence: Presence, origin: nat)
    | PeerUpdate(server: nat, excluded: Option<nat>, before: Presence, after: Presence)
    | PeerLeft(server: nat, excluded: Option<nat>, presence: Presence, target: Option<nat>)

  datatype Frame =
    | EnterView(client: nat, from: nat, to: nat, state: Attributes)
    | Moved(client: nat, from: nat, to: nat)
    | LeftView(client: nat, from: nat, to: nat)
    | Updated(client: nat, changes: Attributes)

  // --- Deriving and sending frames ---

  function Changes(before: Attributes, after: Attributes): Attributes {
    map k | k in after && !(k in before && before[k] == after[k]) :: after[k]
  }

  /** The attributes whose value is new; nothing when there are none. */
  function UpdateRow(before: Presence, after: Presence): Option<Attributes> {
    var changes := Changes(before.state, after.state);
    if changes == map[] then None else Some(changes)
  }

  function DerivePeerFrames(before: Option<Presence>, after: Option<Presence>): seq<Broadcast> {
    match (before, after)
    case (None, Some(a)) => [PeerEnter(a.server, Some(a.client), a, None)]
    case (Some(b), Some(a)) =>
      if b.server != a.server then []
      else if b.channel != a.channel then [PeerMove(a.server, Some(a.client), a, b.channel)]
      else if UpdateRow(b, a).None? then []
      else [PeerUpdate(a.server, Some(a.client), b, a)]
    case _ => []
  }

  /** Who a session belongs to and what it sees. */
  datatype Viewer = Viewer(client: nat, server: nat, visible: set<nat>)

  /** The frame a broadcast sends to a viewer. */
  function FrameFor(v: Viewer, b: Broadcast): Option<Frame> {
    if v.server != b.server || b.excluded == Some(v.client) then None else
      match b
      case PeerEnter(_, _, p, from) =>
        if p.channel in v.visible
        then Some(EnterView(p.client, if from.Some? then from.value else 0, p.channel, p.state))
        else None
      case PeerMove(_, _, p, origin) =>
        if origin in v.visible && p.channel in v.visible then Some(Moved(p.client, origin, p.channel))
        else if origin in v.visible then Some(LeftView(p.client, origin, p.channel))
        else if p.channel in v.visible then Some(EnterView(p.client, origin, p.channel, p.state))
        else None
      case PeerUpdate(_, _, before, after) =>
        var row := UpdateRow(before, after);
        if after.channel in v.visible && row.Some? then Some(Updated(after.client, row.value)) else None
      case PeerLeft(_, _, p, target) =>
        if p.channel in v.visible then Some(LeftView(p.client, p.channel, if target.Some? then target.value else 0))
        else None
  }

  function FramesFor(v: Viewer, broadcasts: seq<Broadcast>): seq<Frame> {
    if broadcasts == [] then [] else
      FramesFor(v, broadcasts[..|broadcasts| - 1])
      + (match FrameFor(v, broadcasts[|broadcasts| - 1]) case Some(f) => [f] case None => [])
  }

  class Session {
    const viewer: Viewer
    var pending: seq<Frame>

    constructor (viewer: Viewer)
      ensures this.viewer == viewer && pending == []
    {
      this.viewer := viewer;
      pending := [];
    }
  }

  /** The frames collected for one session. */
  function FramesTo(recipients: seq<(Session, Frame)>, s: Session): seq<Frame> {
    if recipients == [] then [] else
      var last := recipients[|recipients| - 1];
      FramesTo(recipients[..|recipients| - 1], s) + if last.0 == s then [last.1] else []
  }

  lemma FramesToStep(recipients: seq<(Session, Frame)>, r: (Session, Frame), s: Session)
    ensures FramesTo(recipients + [r], s) == FramesTo(recipients, s) + if r.0 == s then [r.1] else []
  {
    assert (recipients + [r])[..|recipients|] == recipients;
  }

  /** The recipients of one broadcast; the sessions are visited in an arbitrary order. */
  method CollectRecipients(sessions: set<Session>, b: Broadcast, start: seq<(Session, Frame)>)
    returns (recipients: seq<(Session, Frame)>)
    ensures forall s :: s in sessions ==> FramesTo(recipients, s) == FramesTo(start, s) + FramesFor(s.viewer, [b])
    ensures forall r :: r in recipients ==> r in start || r.0 in sessions
  {
    recipients := start;
    var todo := sessions;
    while todo != {}
      invariant todo <= sessions
      invariant forall s :: s in sessions ==>
        FramesTo(recipients, s) == FramesTo(start, s) + if s in todo then [] else FramesFor(s.viewer, [b])
      invariant forall r :: r in recipients ==> r in start || r.0 in sessions
      decreases todo
    {
      var session :| session in todo;
      todo := todo - {session};
      assert [b][..0] == [];
      var frame := FrameFor(session.viewer, b);
      if frame.Some? {
        forall s | s in sessions
          ensures FramesTo(recipients + [(session, frame.value)], s)
               == FramesTo(recipients, s) + if s == session then [frame.value] else []
        {
          FramesToStep(recipients, (session, frame.value), s);
        }
        recipients := recipients + [(session, frame.value)];
      }
    }
  }

  lemma FramesForStep(v: Viewer, broadcasts: seq<Broadcast>, i: nat)
    requires i < |broadcasts|
    ensures FramesFor(v, broadcasts[..i + 1]) == FramesFor(v, broadcasts[..i]) + FramesFor(v, [broadcasts[i]])
  {
    assert broadcasts[..i + 1][..i] == broadcasts[..i];
    assert [broadcasts[i]][..0] == [];
  }

  /** Every session's queue grows by exactly the frames meant for it, in order. */
  method BroadcastPresenceChange(sessions: set<Session>, broadcasts: seq<Broadcast>)
    modifies sessions
    ensures forall s :: s in sessions ==> s.pending == old(s.pending) + FramesFor(s.viewer, broadcasts)
  {
    var recipients: seq<(Session, Frame)> := [];
    for i := 0 to |broadcasts|
      invariant forall s :: s in sessions ==> s.pending == old(s.pending)
      invariant forall s :: s in sessions ==> FramesTo(recipients, s) == FramesFor(s.viewer, broadcasts[..i])
      invariant forall r :: r in recipients ==> r.0 in sessions
    {
      forall s | s in sessions
        ensures FramesFor(s.viewer, broadcasts[..i + 1])
             == FramesFor(s.viewer, broadcasts[..i]) + FramesFor(s.viewer, [broadcasts[i]])
      {
        FramesForStep(s.viewer, broadcasts, i);
      }
      recipients := CollectRecipients(sessions, broadcasts[i], recipients);
    }
    assert broadcasts[..|broadcasts|] == broadcasts;
    assert forall s :: s in sessions ==> FramesTo(recipients, s) == FramesFor(s.viewer, broadcasts);
    PushAll(sessions, recipients);
  }

  method PushAll(sessions: set<Session>, recipients: seq<(Session, Frame)>)
    requires forall r :: r in recipients ==> r.0 in sessions
    modifies sessions
    ensures forall s :: s in sessions ==> s.pending == old(s.pending) + FramesTo(recipients, s)
  {
    for j := 0 to |recipients|
      invariant forall s :: s in sessions ==> s.pending == old(s.pending) + FramesTo(recipients[..j], s)
    {
      var (session, frame) := recipients[j];
      assert recipients[j] in recipients;
      forall s | s in sessions
        ensures FramesTo(recipients[..j + 1], s) == FramesTo(recipients[..j], s) + if session == s then [frame] else []
      {
        assert recipients[..j + 1] == recipients[..j] + [recipients[j]];
        FramesToStep(recipients[..j], recipients[j], s);
      }
      ghost var before := old(session.pending);
      ConcatAssociates(before, FramesTo(recipients[..j], session), [frame]);
      session.pending := session.pending + [frame];
    }
    assert recipients[..|recipients|] == recipients;
  }

  // --- What a replica makes of its queue ---

  datatype Entry = Entry(channel: nat, state: Attributes)

  type View = map<nat, Entry>

  function Apply(view: View, f: Frame): View {
    match f
    case EnterView(client, _, to, state) => view[client := Entry(to, state)]
    case Moved(client, _, to) => view[client := Entry(to, if client in view then view[client].state else map[])]
    case LeftView(client, _, _) => view - {client}
    case Updated(client, changes) =>
      if client in view then view[client := view[client].(state := view[client].state + changes)] else view
  }

  function Drain(view: View, frames: seq<Frame>): View
    decreases |frames|
  {
    if frames == [] then view else Drain(Apply(view, frames[0]), frames[1..])
  }

  lemma {:induction false} DrainAppend(view: View, a: seq<Frame>, b: seq<Frame>)
    ensures Drain(view, a + b) == Drain(Drain(view, a), b)
    decreases |a|
  {
    if a == [] {
      assert a + b == b;
    } else {
      assert (a + b)[1..] == a[1..] + b;
      DrainAppend(Apply(view, a[0]), a[1..], b);
    }
  }

  predicate Shows(v: Viewer, p: Presence) {
    p.server == v.server && p.channel in v.visible && p.client != v.client
  }

  type Table = map<nat, Presence>

  ghost predicate ValidTable(table: Table) {
    forall k :: k in table ==> table[k].client == k
  }

  /** The part of the table that a viewer should see. */
  function Expected(table: Table, v: Viewer): View {
    map k | k in table && Shows(v, table[k]) :: Entry(table[k].channel, table[k].state)
  }

  function Locations(view: View): map<nat, nat> {
    map k | k in view :: view[k].channel
  }

  function Lookup(table: Table, client: nat): Option<Presence> {
    if client in table then Some(table[client]) else None
  }

  // --- One step ---

  predicate IsShown(v: Viewer, p: Option<Presence>) {
    p.Some? && Shows(v, p.value)
  }

  /** The derived frames are enough for locations: an entry or a step within one server, or nothing to see. */
  predicate LocationSynced(v: Viewer, before: Option<Presence>, after: Option<Presence>) {
    || before.None?
    || (after.Some? && after.value.server == before.value.server)
    || (!IsShown(v, before) && !IsShown(v, after))
  }

  /** They are enough for attributes too, unless a client the viewer keeps seeing changes both channel and
      attributes, or loses an attribute. */
  predicate FullySynced(v: Viewer, before: Option<Presence>, after: Option<Presence>) {
    && LocationSynced(v, before, after)
    && (IsShown(v, before) && IsShown(v, after) ==>
          if before.value.channel != after.value.channel then before.value.state == after.value.state
          else before.value.state.Keys <= after.value.state.Keys)
  }

  ghost predicate LocatedAs(view: View, client: nat, v: Viewer, p: Option<Presence>) {
    && (client in view <==> IsShown(v, p))
    && (client in view ==> view[client].channel == p.value.channel)
  }

  ghost predicate EntryIs(view: View, client: nat, v: Viewer, p: Option<Presence>) {
    LocatedAs(view, client, v, p) && (client in view ==> view[client].state == p.value.state)
  }

  ghost predicate SameElsewhere(view: View, view': View, client: nat) {
    forall k :: k != client ==> ((k in view' <==> k in view) && (k in view ==> view'[k] == view[k]))
  }

  lemma OneFrame(v: Viewer, before: Option<Presence>, after: Option<Presence>, view: View)
    ensures var broadcasts := DerivePeerFrames(before, after);
      Drain(view, FramesFor(v, broadcasts)) ==
        if broadcasts == [] || FrameFor(v, broadcasts[0]).None? then view
        else Apply(view, FrameFor(v, broadcasts[0]).value)
  {
    var broadcasts := DerivePeerFrames(before, after);
    if broadcasts != [] {
      assert |broadcasts| == 1 && broadcasts[..0] == [];
    }
  }

  /** Sending only the changed attributes is enough exactly when none has been dropped. */
  lemma UpdateMerges(before: Presence, after: Presence)
    ensures var row := UpdateRow(before, after);
      (row.Some? ==> (before.state + row.value == after.state <==> before.state.Keys <= after.state.Keys))
      && (row.None? ==> (before.state == after.state <==> before.state.Keys <= after.state.Keys))
  {
    var changes := Changes(before.state, after.state);
    var merged := before.state + changes;
    forall k | k in after.state ensures k in merged && merged[k] == after.state[k] {
      if k !in changes { assert k in before.state && before.state[k] == after.state[k]; }
    }
    assert merged.Keys == before.state.Keys + after.state.Keys by {
      assert changes.Keys <= after.state.Keys;
    }
    if before.state.Keys <= after.state.Keys {
      assert merged.Keys == after.state.Keys;
      assert merged == after.state;
    }
    if changes == map[] {
      assert merged == before.state;
    }
    if merged == after.state {
      assert before.state.Keys <= after.state.Keys;
    }
  }

  /** After the derived frames are applied, the view shows the client where it is exactly under
      `LocationSynced`, and as it is exactly under `FullySynced`. No other client is touched. */
  lemma StepIsExact(v: Viewer, before: Option<Presence>, after: Option<Presence>, client: nat, view: View)
    requires before.Some? ==> before.value.client == client
    requires after.Some? ==> after.value.client == client
    requires LocatedAs(view, client, v, before)
    ensures var view' := Drain(view, FramesFor(v, DerivePeerFrames(before, after)));
      && SameElsewhere(view, view', client)
      && (LocatedAs(view', client, v, after) <==> LocationSynced(v, before, after))
      && (EntryIs(view, client, v, before) ==> (EntryIs(view', client, v, after) <==> FullySynced(v, before, after)))
  {
    OneFrame(v, before, after, view);
    if before.Some? && after.Some? {
      UpdateMerges(before.value, after.value);
    }
  }

  /** A viewer that sees channels 1 and 2 of server 1, and a client in channel 1. */
  const WATCHER := Viewer(9, 1, {1, 2})
  const AT_FIRST := Presence(5, 1, 1, map["nick" := "a"])

  /** What the watcher makes of a step of that client. */
  function Watched(after: Option<Presence>): View {
    Drain(map[5 := Entry(1, AT_FIRST.state)], FramesFor(WATCHER, DerivePeerFrames(Some(AT_FIRST), after)))
  }

  /** A client that disappears or changes server stays in the view. */
  lemma GoneButShown()
    ensures 5 in Watched(None)
    ensures 5 in Watched(Some(Presence(5, 2, 1, AT_FIRST.state)))
  {
    var elsewhere := Some(Presence(5, 2, 1, AT_FIRST.state));
    StepIsExact(WATCHER, Some(AT_FIRST), None, 5, map[5 := Entry(1, AT_FIRST.state)]);
    StepIsExact(WATCHER, Some(AT_FIRST), elsewhere, 5, map[5 := Entry(1, AT_FIRST.state)]);
  }

  /** A move hides a new attribute value, and a dropped attribute stays. */
  lemma StaleAttributes()
    ensures 5 in Watched(Some(Presence(5, 1, 2, map["nick" := "b"])))
      && Watched(Some(Presence(5, 1, 2, map["nick" := "b"])))[5] != Entry(2, map["nick" := "b"])
    ensures 5 in Watched(Some(Presence(5, 1, 1, map[])))
      && Watched(Some(Presence(5, 1, 1, map[])))[5] != Entry(1, map[])
  {
    var moved, dropped := Some(Presence(5, 1, 2, map["nick" := "b"])), Some(Presence(5, 1, 1, map[]));
    assert "nick" in AT_FIRST.state && AT_FIRST.state["nick"] == "a" && moved.value.state["nick"] == "b";
    assert "a"[0] != "b"[0];
    StepIsExact(WATCHER, Some(AT_FIRST), moved, 5, map[5 := Entry(1, AT_FIRST.state)]);
    StepIsExact(WATCHER, Some(AT_FIRST), dropped, 5, map[5 := Entry(1, AT_FIRST.state)]);
  }

  /** The frame tells the step of its client: where it came from, 0 when it was nowhere, and where it went. */
  predicate Tells(f: Frame, before: Option<Presence>, after: Presence) {
    var from := if before.Some? then before.value.channel else 0;
    match f
    case EnterView(client, cfid, ctid, state) =>
      client == after.client && cfid == from && ctid == after.channel && state == after.state
    case Moved(client, cfid, ctid) => client == after.client && cfid == from && ctid == after.channel
    case LeftView(client, cfid, ctid) => client == after.client && cfid == from && ctid == after.channel
    case Updated(client, changes) =>
      && client == after.client && before.Some? && from == after.channel
      && changes == Changes(before.value.state, after.state)
  }

  /** Every frame sent for a step of a client tells that step, and the client itself gets none. */
  lemma FramesTellTheStep(v: Viewer, before: Option<Presence>, after: Presence)
    requires before.Some? ==> before.value.client == after.client
    ensures forall f :: f in FramesFor(v, DerivePeerFrames(before, Some(after))) ==>
      Tells(f, before, after) && v.client != after.client && v.server == after.server
  {
    var broadcasts := DerivePeerFrames(before, Some(after));
    if broadcasts != [] { assert |broadcasts| == 1 && broadcasts[..0] == []; }
  }

  /** The frame for a client that leaves names the channel it was in, and no other. */
  lemma LeavingFrame(v: Viewer, table: Table, client: nat)
    requires ValidTable(table)
    ensures forall f :: f in FramesFor(v, BroadcastsOf(table, Left(client))) ==>
      client in table && f == LeftView(client, table[client].channel, 0)
  {
    var broadcasts := BroadcastsOf(table, Left(client));
    if broadcasts != [] { assert |broadcasts| == 1 && broadcasts[..0] == []; }
  }

  // --- Runs ---

  /** A session's replica: what it has applied and what is still queued. */
  datatype Replica = Replica(viewer: Viewer, view: View, queue: seq<Frame>)

  datatype System = System(table: Table, replicas: map<nat, Replica>)

  /** A client enters, moves or changes within its server; it leaves; a session takes frames off its queue. */
  datatype Event = Peer(after: Presence) | Left(client: nat) | Deliver(session: nat, count: nat)

  function BroadcastsOf(table: Table, e: Event): seq<Broadcast> {
    match e
    case Peer(after) => DerivePeerFrames(Lookup(table, after.client), Some(after))
    case Left(client) =>
      if client in table then [PeerLeft(table[client].server, Some(client), table[client], None)] else []
    case Deliver(_, _) => []
  }

  function Delivered(r: Replica, count: nat): Replica {
    var n := if count <= |r.queue| then count else |r.queue|;
    Replica(r.viewer, Drain(r.view, r.queue[..n]), r.queue[n..])
  }

  function TableAfter(table: Table, e: Event): Table {
    match e
    case Peer(after) => table[after.client := after]
    case Left(client) => table - {client}
    case Deliver(_, _) => table
  }

  function Next(s: System, e: Event): System {
    match e
    case Deliver(session, count) =>
      if session in s.replicas then s.(replicas := s.replicas[session := Delivered(s.replicas[session], count)]) else s
    case _ =>
      System(TableAfter(s.table, e), map k | k in s.replicas ::
        s.replicas[k].(queue := s.replicas[k].queue + FramesFor(s.replicas[k].viewer, BroadcastsOf(s.table, e))))
  }

  /** A client stays on its server; where attributes count too, a step keeps every attribute, and does not
      change them together with the channel. */
  predicate Admissible(table: Table, e: Event, attributes: bool) {
    e.Peer? && e.after.client in table ==>
      var before := table[e.after.client];
      && before.server == e.after.server
      && (attributes ==>
            if before.channel != e.after.channel then before.state == e.after.state
            else before.state.Keys <= e.after.state.Keys)
  }

  function RunAll(s: System, events: seq<Event>): System
    decreases |events|
  {
    if events == [] then s else RunAll(Next(s, events[0]), events[1..])
  }

  predicate AllAdmissible(s: System, events: seq<Event>, attributes: bool)
    decreases |events|
  {
    events != [] ==>
      Admissible(s.table, events[0], attributes) && AllAdmissible(Next(s, events[0]), events[1..], attributes)
  }

  ghost predicate Agrees(view: View, client: nat, v: Viewer, p: Option<Presence>, attributes: bool) {
    if attributes then EntryIs(view, client, v, p) else LocatedAs(view, client, v, p)
  }

  /** Once its queue is drained, the replica shows exactly the clients the table puts where it can see. */
  ghost predicate InSync(table: Table, r: Replica, attributes: bool) {
    forall client: nat :: Agrees(Drain(r.view, r.queue), client, r.viewer, Lookup(table, client), attributes)
  }

  ghost predicate Invariant(s: System, attributes: bool) {
    ValidTable(s.table) && forall k :: k in s.replicas ==> InSync(s.table, s.replicas[k], attributes)
  }

  lemma LeftFrame(table: Table, client: nat, v: Viewer, view: View)
    requires ValidTable(table) && client in table && LocatedAs(view, client, v, Some(table[client]))
    ensures var view' := Drain(view, FramesFor(v, BroadcastsOf(table, Left(client))));
      SameElsewhere(view, view', client) && EntryIs(view', client, v, None)
  {
    var broadcasts := BroadcastsOf(table, Left(client));
    assert |broadcasts| == 1 && broadcasts[..0] == [];
  }

  lemma EventKeepsReplica(table: Table, r: Replica, e: Event, table': Table, attributes: bool)
    requires ValidTable(table) && InSync(table, r, attributes) && Admissible(table, e, attributes) && !e.Deliver?
    requires table' == TableAfter(table, e)
    ensures InSync(table', r.(queue := r.queue + FramesFor(r.viewer, BroadcastsOf(table, e))), attributes)
  {
    var frames := FramesFor(r.viewer, BroadcastsOf(table, e));
    var view := Drain(r.view, r.queue);
    DrainAppend(r.view, r.queue, frames);
    var changed := match e case Peer(after) => after.client case Left(c) => c case _ => 0;
    assert Agrees(view, changed, r.viewer, Lookup(table, changed), attributes);
    if e.Peer? {
      StepIsExact(r.viewer, Lookup(table, changed), Some(e.after), changed, view);
    } else if changed in table {
      LeftFrame(table, changed, r.viewer, view);
    }
    forall client: nat ensures Agrees(Drain(view, frames), client, r.viewer, Lookup(table', client), attributes) {
      assert Agrees(view, client, r.viewer, Lookup(table, client), attributes);
    }
  }

  lemma NextKeepsInvariant(s: System, e: Event, attributes: bool)
    requires Invariant(s, attributes) && Admissible(s.table, e, attributes)
    ensures Invariant(Next(s, e), attributes)
  {
    var s' := Next(s, e);
    if e.Deliver? {
      if e.session in s.replicas {
        var r := s.replicas[e.session];
        var n := if e.count <= |r.queue| then e.count else |r.queue|;
        DrainAppend(r.view, r.queue[..n], r.queue[n..]);
        assert r.queue[..n] + r.queue[n..] == r.queue;
      }
    } else {
      forall k | k in s'.replicas ensures InSync(s'.table, s'.replicas[k], attributes) {
        EventKeepsReplica(s.table, s.replicas[k], e, s'.table, attributes);
      }
    }
  }

  /** A session that starts from the visible part of the table is in sync. */
  lemma SnapshotInSync(table: Table, v: Viewer, attributes: bool)
    requires ValidTable(table)
    ensures InSync(table, Replica(v, Expected(table, v), []), attributes)
  {
    var view := Expected(table, v);
    forall client: nat ensures Agrees(Drain(view, []), client, v, Lookup(table, client), attributes) {
      assert Drain(view, []) == view;
    }
  }

  /** Over every run, a session that has drained its queue locates the other clients exactly as the server's
      table does, within what it may see; over runs whose steps also keep the attributes in reach of the
      frames, its view is the visible part of the table. */
  lemma {:induction false} ReplicaConsistency(s: System, events: seq<Event>, attributes: bool)
    requires Invariant(s, attributes) && AllAdmissible(s, events, attributes)
    ensures var end := RunAll(s, events);
      Invariant(end, attributes)
      && forall k :: k in end.replicas && end.replicas[k].queue == [] ==>
           var view, expected := end.replicas[k].view, Expected(end.table, end.replicas[k].viewer);
           Locations(view) == Locations(expected) && (attributes ==> view == expected)
    decreases |events|
  {
    if events != [] {
      NextKeepsInvariant(s, events[0], attributes);
      ReplicaConsistency(Next(s, events[0]), events[1..], attributes);
    } else {
      forall k | k in s.replicas && s.replicas[k].queue == []
        ensures Locations(s.replicas[k].view) == Locations(Expected(s.table, s.replicas[k].viewer))
        ensures attributes ==> s.replicas[k].view == Expected(s.table, s.replicas[k].viewer)
      {
        SyncedView(s.table, s.replicas[k], attributes);
      }
    }
  }

  lemma SyncedView(table: Table, r: Replica, attributes: bool)
    requires InSync(table, r, attributes) && r.queue == []
    ensures Locations(r.view) == Locations(Expected(table, r.viewer))
    ensures attributes ==> r.view == Expected(table, r.viewer)
  {
    var expected := Expected(table, r.viewer);
    forall client: nat
      ensures client in r.view <==> client in expected
      ensures client in expected ==> r.view[client].channel == expected[client].channel
      ensures client in expected && attributes ==> r.view[client] == expected[client]
    {
      assert Drain(r.view, r.queue) == r.view;
      assert Agrees(r.view, client, r.viewer, Lookup(table, client), attributes);
    }
  }
}
