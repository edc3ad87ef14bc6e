/** The store after loading, in terms of the store that was loaded. */
module NormalizedStore {
  import opened Collections
  import opened Records
  import opened Normalization
  import opened NormalizationSafety

  /** A client exists when something else in the store mentions it or it has permissions of its own. */
  ghost predicate ClientExists(w: Loaded, client: nat) {
    client in w.otherClients || HasPermissions(w.clientTargets, client)
  }

  ghost predicate AssignmentRefers(w: Loaded, a: ChannelGroupAssignment) {
    a.group in w.groups && a.channel in w.channels && ClientExists(w, a.client)
  }

  ghost predicate TargetRefers(w: Loaded, t: ChannelClientTarget) {
    t.channel in w.channels && ClientExists(w, t.client) && t.permissions != map[]
  }

  function FirstPass(w: Loaded): Loaded {
    w.(clientTargets := NormalizedClients(w.clientTargets))
  }

  lemma KnownAfterFirstPass(w: Loaded, client: nat)
    ensures client in KnownIn(FirstPass(w)).clients <==> ClientExists(w, client)
  {
    KeptClients(w.clientTargets, client);
  }

  lemma KeptRefers(w: Loaded, a: ChannelGroupAssignment)
    ensures IsKept(KnownIn(FirstPass(w)), a) <==> AssignmentRefers(w, a)
  {
    KnownAfterFirstPass(w, a.client);
  }

  lemma KeptTargetRefers(w: Loaded, t: ChannelClientTarget)
    ensures IsKeptTarget(KnownIn(FirstPass(w)), t) <==> TargetRefers(w, t)
  {
    KnownAfterFirstPass(w, t.client);
  }

  /** After loading, every remaining assignment names an existing group, channel and client, and every remaining
      channel permission an existing channel and client; there is one entry per channel and client, and one per
      client. Clients exist in the loaded store exactly if they exist in the one that was stored. */
  lemma NormalizedRefers(w: Loaded)
    ensures var n := Normalize(w);
      && n.groups == w.groups && n.channels == w.channels && n.otherClients == w.otherClients
      && (forall client :: ClientExists(n, client) <==> ClientExists(w, client))
      && (forall a :: a in n.assignments ==> AssignmentRefers(n, a))
      && (forall t :: t in n.targets ==> TargetRefers(n, t))
      && (forall i, j :: 0 <= i < j < |n.assignments| ==>
            (n.assignments[i].channel, n.assignments[i].client) != (n.assignments[j].channel, n.assignments[j].client))
      && (forall i, j :: 0 <= i < j < |n.targets| ==>
            (n.targets[i].channel, n.targets[i].client) != (n.targets[j].channel, n.targets[j].client))
      && (forall i, j :: 0 <= i < j < |n.clientTargets| ==> n.clientTargets[i].client != n.clientTargets[j].client)
  {
    var n := Normalize(w);
    ClientsDiffer(w.clientTargets);
    AssignmentsRefer(KnownIn(FirstPass(w)), w.assignments);
    TargetsRefer(KnownIn(FirstPass(w)), w.targets);
    forall client ensures ClientExists(n, client) <==> ClientExists(w, client) {
      SameClients(w, client);
    }
    forall a | a in n.assignments ensures AssignmentRefers(n, a) { KeptRefers(w, a); }
    forall t | t in n.targets ensures TargetRefers(n, t) { KeptTargetRefers(w, t); }
  }

  lemma SameClients(w: Loaded, client: nat)
    ensures ClientExists(Normalize(w), client) <==> ClientExists(w, client)
  {
    KeptClients(w.clientTargets, client);
    KeptClients(NormalizedClients(w.clientTargets), client);
    ClientsIdempotent(w.clientTargets);
  }

  // --- What stays ---

  /** The assignment at `i` is valid, and no later one of its channel and client is. */
  ghost predicate LastValid(w: Loaded, i: nat, a: ChannelGroupAssignment) {
    && i < |w.assignments| && w.assignments[i] == a && AssignmentRefers(w, a)
    && forall j :: i < j < |w.assignments| && AssignmentRefers(w, w.assignments[j]) ==>
         (w.assignments[j].channel, w.assignments[j].client) != (a.channel, a.client)
  }

  lemma {:induction false} LastGroupFound(known: Known, s: seq<ChannelGroupAssignment>, key: Pair) returns (i: nat)
    requires LastGroup(known, s, key).Some?
    ensures i < |s| && IsKept(known, s[i]) && (s[i].channel, s[i].client) == key
    ensures LastGroup(known, s, key) == Some(s[i].group)
    ensures forall j :: i < j < |s| && IsKept(known, s[j]) ==> (s[j].channel, s[j].client) != key
  {
    if LastGroup(known, s[1..], key).Some? {
      i := LastGroupFound(known, s[1..], key);
      i := i + 1;
    } else {
      NoLastGroup(known, s[1..], key);
      i := 0;
    }
  }

  lemma {:induction false} NoLastGroup(known: Known, s: seq<ChannelGroupAssignment>, key: Pair)
    requires LastGroup(known, s, key).None?
    ensures forall j :: 0 <= j < |s| && IsKept(known, s[j]) ==> (s[j].channel, s[j].client) != key
  {
    if s != [] { NoLastGroup(known, s[1..], key); }
  }

  /** The loaded store holds an assignment exactly when it is the last of its channel and client that names an
      existing group, channel and client. */
  lemma AssignmentStays(w: Loaded, a: ChannelGroupAssignment)
    ensures a in Normalize(w).assignments <==> exists i :: LastValid(w, i, a)
  {
    var known, key := KnownIn(FirstPass(w)), (a.channel, a.client);
    KeptAssignments(known, w.assignments, a);
    forall b ensures IsKept(known, b) <==> AssignmentRefers(w, b) { KeptRefers(w, b); }
    if LastGroup(known, w.assignments, key).Some? {
      var i := LastGroupFound(known, w.assignments, key);
      if w.assignments[i].group == a.group { assert LastValid(w, i, a); }
      if k :| LastValid(w, k, a) { assert k == i; }
    } else {
      NoLastGroup(known, w.assignments, key);
    }
  }

  /** The target at `i` is valid and gives the permission this value, and no later valid one of its channel and
      client mentions the permission. */
  ghost predicate LastSetting(w: Loaded, i: nat, key: Pair, name: string, value: int) {
    && i < |w.targets| && TargetRefers(w, w.targets[i]) && Sets(w.targets[i], key, name)
    && w.targets[i].permissions[name] == value
    && forall j :: i < j < |w.targets| && TargetRefers(w, w.targets[j]) ==> !Sets(w.targets[j], key, name)
  }

  predicate Sets(t: ChannelClientTarget, key: Pair, name: string) {
    (t.channel, t.client) == key && name in t.permissions
  }

  lemma {:induction false} LastPermissionFound(known: Known, s: seq<ChannelClientTarget>, key: Pair, name: string)
    returns (i: nat)
    requires LastPermission(known, s, key, name).Some?
    ensures i < |s| && IsKeptTarget(known, s[i]) && Sets(s[i], key, name)
    ensures LastPermission(known, s, key, name) == Some(s[i].permissions[name])
    ensures forall j :: i < j < |s| && IsKeptTarget(known, s[j]) ==> !Sets(s[j], key, name)
  {
    if LastPermission(known, s[1..], key, name).Some? {
      i := LastPermissionFound(known, s[1..], key, name);
      i := i + 1;
    } else {
      NoLastPermission(known, s[1..], key, name);
      i := 0;
    }
  }

  lemma {:induction false} NoLastPermission(known: Known, s: seq<ChannelClientTarget>, key: Pair, name: string)
    requires LastPermission(known, s, key, name).None?
    ensures forall j :: 0 <= j < |s| && IsKeptTarget(known, s[j]) ==> !Sets(s[j], key, name)
  {
    if s != [] { NoLastPermission(known, s[1..], key, name); }
  }

  /** The loaded store gives a channel and client a permission exactly as the last valid target that mentions it
      does. */
  lemma PermissionStays(w: Loaded, key: Pair, name: string, value: int)
    ensures (exists t :: t in Normalize(w).targets && Sets(t, key, name) && t.permissions[name] == value)
       <==> exists i :: LastSetting(w, i, key, name, value)
  {
    var known := KnownIn(FirstPass(w));
    KeptPermissions(known, w.targets, key, name, value);
    forall b ensures IsKeptTarget(known, b) <==> TargetRefers(w, b) { KeptTargetRefers(w, b); }
    if LastPermission(known, w.targets, key, name).Some? {
      var i := LastPermissionFound(known, w.targets, key, name);
      if w.targets[i].permissions[name] == value { assert LastSetting(w, i, key, name, value); }
      if k :| LastSetting(w, k, key, name, value) { assert k == i; }
    } else {
      NoLastPermission(known, w.targets, key, name);
    }
  }
}
