/** What the device-state operations do, told in what a reader of the store sees: which fields are live, whom the node
    indexes name, what a notification writes and queues. */
module DeviceMeaning {
  import opened Collections
  import opened Ordering
  import opened DeviceStore
  import opened DeviceSummaries
  import DueQueue

  // The addresses of a report.

  /** The addresses that the first `n` values of the list name. */
  function Named(values: seq<string>, n: nat, parse: string -> Option<IP>): set<IP>
    requires n <= |values|
  {
    set j | 0 <= j < n && parse(values[j]).Some? :: parse(values[j]).value
  }

  /** `ip` is one of the first 64 different addresses of the list. */
  predicate Counts64(values: seq<string>, parse: string -> Option<IP>, ip: IP) {
    exists i :: 0 <= i < |values| && parse(values[i]) == Some(ip) && |Named(values, i, parse)| < 64
  }

  lemma NamedMore(values: seq<string>, n: nat, parse: string -> Option<IP>)
    requires n < |values|
    ensures Named(values, n + 1, parse) == Named(values, n, parse)
      + if parse(values[n]).Some? then {parse(values[n]).value} else {}
  {
  }

  lemma SameCounts(values: seq<string>, n: nat, parse: string -> Option<IP>, ip: IP)
    requires n < |values|
    ensures Counts64(values[..n + 1], parse, ip) <==>
      Counts64(values[..n], parse, ip) || (parse(values[n]) == Some(ip) && |Named(values, n, parse)| < 64)
  {
    assert forall i :: 0 <= i <= n ==> Named(values[..n + 1], i, parse) == Named(values, i, parse);
    assert forall i :: 0 <= i <= n ==> i <= |values[..n]| && Named(values[..n], i, parse) == Named(values, i, parse);
    assert forall i :: 0 <= i < n ==> values[..n + 1][i] == values[..n][i];
  }

  // What the scripts of a report leave.

  /** Fields of the other nodes are as they were, live or not. */
  ghost predicate SameElsewhere(before: map<Field, int>, after: map<Field, int>, n: Node) {
    forall f: Field :: f.node != n ==> (f in after <==> f in before) && (f in before ==> after[f] == before[f])
  }

  lemma {:induction false} ScriptsKeepOthers(s: Store, n: Node, snapshot: map<User, set<IP>>, order: seq<User>, v: User)
    requires Tagged(s)
    ensures SameElsewhere(Hash(s, v), Hash(ReplaceUsers(s, n, snapshot, order), v), n)
    ensures Tagged(ReplaceUsers(s, n, snapshot, order))
    decreases |order|
  {
    if order != [] {
      var ips := Asked(snapshot, order[0]);
      var t := ReplaceUser(s, n, order[0], ips, Unix(s.clock));
      ScriptsKeepOthers(t, n, snapshot, order[1..], v);
      OneKeepsOthers(s, n, order[0], ips, Unix(s.clock), v);
    }
  }

  lemma OneKeepsOthers(s: Store, n: Node, u: User, ips: set<IP>, time: int, v: User)
    requires Tagged(s)
    ensures Tagged(ReplaceUser(s, n, u, ips, time))
    ensures SameElsewhere(Hash(s, v), Hash(ReplaceUser(s, n, u, ips, time), v), n)
  {
    if v != u {
      ReplaceElsewhere(s, n, u, ips, time, v);
    }
    forall f: Field | f.node != n && v == u
      ensures f in Hash(ReplaceUser(s, n, u, ips, time), u) <==> f in Hash(s, u)
      ensures f in Hash(s, u) ==> Hash(ReplaceUser(s, n, u, ips, time), u)[f] == Hash(s, u)[f]
    {
      ReplaceHash(s, n, u, ips, time, f);
      assert f !in FieldsOf(s, u, n);
    }
  }

  /** The node's live fields of a visited user are stamped with the time of the report. */
  ghost predicate Stamped(fields: map<Field, int>, n: Node, time: int) {
    forall f :: f in fields && f.node == n ==> fields[f] == time
  }

  lemma {:induction false} ScriptsStamp(s: Store, seen: Seen, n: Node, snapshot: map<User, set<IP>>, order: seq<User>,
                                        v: User)
    requires Agrees(s, seen) && Distinct(order) && v in order
    ensures Stamped(LiveFields(ReplaceUsers(s, n, snapshot, order), v), n, Unix(s.clock))
    decreases |order|
  {
    var u, ips := order[0], Asked(snapshot, order[0]);
    var t, after := ReplaceUser(s, n, u, ips, Unix(s.clock)), Record(seen, n, u, ips, Unix(s.clock));
    ReplaceUserAgrees(s, seen, n, u, ips, Unix(s.clock));
    if v == u {
      OneStamps(s, seen, n, u, ips);
      ReplaceUsersAgrees(t, after, n, snapshot, order[1..]);
    } else {
      ScriptsStamp(t, after, n, snapshot, order[1..], v);
    }
  }

  lemma OneStamps(s: Store, seen: Seen, n: Node, u: User, ips: set<IP>)
    requires Agrees(s, seen)
    ensures Stamped(LiveFields(ReplaceUser(s, n, u, ips, Unix(s.clock)), u), n, Unix(s.clock))
  {
    var t := ReplaceUser(s, n, u, ips, Unix(s.clock));
    ScriptLiveIsExact(s, seen, n, u, ips);
    forall f | f in LiveFields(t, u) && f.node == n
      ensures LiveFields(t, u)[f] == Unix(s.clock)
    {
      ReplaceHash(s, n, u, ips, Unix(s.clock), f);
      assert f == Field(n, f.ip);
    }
  }

  /** A user that the node's index does not name has no live field of the node. */
  lemma UnlistedIsQuiet(s: Store, seen: Seen, n: Node, u: User)
    requires Agrees(s, seen) && u !in NodeUsers(s, n)
    ensures forall f :: f in LiveFields(s, u) ==> f.node != n
  {
    forall f | f in LiveFields(s, u)
      ensures f.node != n
    {
      assert (f.node, u) in seen && Held(s, f.node, u, seen[(f.node, u)]);
    }
  }

  /** What is live after a report, user by user. */
  ghost predicate LiveAfterReport(s: Store, t: Store, n: Node, snapshot: map<User, set<IP>>, replaceAll: bool) {
    && t.clock == s.clock
    && (forall u :: u in snapshot ==>
      Exactly(LiveFields(t, u), n, snapshot[u]) && Stamped(LiveFields(t, u), n, Unix(s.clock)))
    && (forall u :: u !in snapshot && replaceAll ==> Exactly(LiveFields(t, u), n, {}))
    && (forall u :: u !in snapshot && !replaceAll ==> LiveFields(t, u) == LiveFields(s, u))
    && (forall u :: SameElsewhere(LiveFields(s, u), LiveFields(t, u), n))
  }

  lemma ReportMeans(s: Store, seen: Seen, n: Node, snapshot: map<User, set<IP>>, replaceAll: bool, b: Batch)
    requires Agrees(s, seen)
    requires Enumerates(b.order, snapshot.Keys + if replaceAll then NodeUsers(s, n) else {})
    ensures LiveAfterReport(s, ReportStore(s, n, snapshot, b), n, snapshot, replaceAll)
  {
    var t := ReplaceUsers(Bump(s, n), n, snapshot, b.order);
    BumpAgrees(s, seen, n);
    ReplaceUsersAgrees(Bump(s, n), seen, n, snapshot, b.order);
    CleanupAllAgrees(t, RecordAll(seen, n, snapshot, b.order, Unix(s.clock)), b.now);
    forall u
      ensures LiveFields(ReportStore(s, n, snapshot, b), u) == LiveFields(t, u)
      ensures u in b.order ==> Exactly(LiveFields(t, u), n, Asked(snapshot, u))
      ensures u in b.order ==> Stamped(LiveFields(t, u), n, Unix(s.clock))
      ensures u !in b.order ==> LiveFields(t, u) == LiveFields(s, u)
      ensures u !in b.order && replaceAll ==> Exactly(LiveFields(t, u), n, {})
      ensures SameElsewhere(LiveFields(s, u), LiveFields(t, u), n)
    {
      VisitedMeans(s, seen, n, snapshot, b.order, u);
      if replaceAll && u !in b.order {
        UnlistedIsQuiet(s, seen, n, u);
      }
    }
    assert forall u :: u in b.order <==> u in AsSet(b.order);
  }

  lemma VisitedMeans(s: Store, seen: Seen, n: Node, snapshot: map<User, set<IP>>, order: seq<User>, u: User)
    requires Agrees(s, seen) && Distinct(order)
    ensures var t := ReplaceUsers(Bump(s, n), n, snapshot, order);
      && (u in order ==>
            Exactly(LiveFields(t, u), n, Asked(snapshot, u)) && Stamped(LiveFields(t, u), n, Unix(s.clock)))
      && (u !in order ==> LiveFields(t, u) == LiveFields(s, u))
      && SameElsewhere(LiveFields(s, u), LiveFields(t, u), n)
  {
    var v := Bump(s, n);
    BumpAgrees(s, seen, n);
    assert Hash(v, u) == Hash(s, u);
    ReplaceUsersAgrees(v, seen, n, snapshot, order);
    ScriptsKeepOthers(v, n, snapshot, order, u);
    if u in order {
      ScriptsLiveAreExact(v, seen, n, snapshot, order, u);
      ScriptsStamp(v, seen, n, snapshot, order, u);
    }
  }

  // The indexes.

  /** One script: the user enters or leaves the node's users and the node the user's nodes; the field index of the
      pair names the new fields; no other entry changes. */
  lemma ScriptIndexes(s: Store, n: Node, u: User, ips: set<IP>, time: int)
    ensures var t := ReplaceUser(s, n, u, ips, time);
      && NodeUsers(t, n) == (if ips == {} then NodeUsers(s, n) - {u} else NodeUsers(s, n) + {u})
      && UserNodes(t, u) == (if ips == {} then UserNodes(s, u) - {n} else UserNodes(s, u) + {n})
      && (forall m :: m != n ==> NodeUsers(t, m) == NodeUsers(s, m))
      && (forall v :: v != u ==> UserNodes(t, v) == UserNodes(s, v))
      && FieldsOf(t, u, n) == (set ip | ip in ips :: Field(n, ip))
      && (forall v, m :: v != u || m != n ==> FieldsOf(t, v, m) == FieldsOf(s, v, m))
  {
  }

  /** The node's index after all scripts of a report: the visited users with an address, and the others as before. */
  lemma {:induction false} ScriptsIndex(s: Store, n: Node, snapshot: map<User, set<IP>>, order: seq<User>, v: User)
    requires Distinct(order)
    ensures v in NodeUsers(ReplaceUsers(s, n, snapshot, order), n) <==>
      if v in order then Asked(snapshot, v) != {} else v in NodeUsers(s, n)
    decreases |order|
  {
    if order != [] {
      ScriptIndexes(s, n, order[0], Asked(snapshot, order[0]), Unix(s.clock));
      ScriptsIndex(ReplaceUser(s, n, order[0], Asked(snapshot, order[0]), Unix(s.clock)), n, snapshot, order[1..], v);
    }
  }

  /** The user has fields of the node, and none of them is live. */
  ghost predicate Gone(s: Store, u: User, n: Node) {
    && (exists f :: f in Hash(s, u) && f.node == n)
    && (forall f :: f in LiveFields(s, u) ==> f.node != n)
  }

  /** Cleaning up after a user: the user leaves the index of each node whose fields are all stale, these nodes leave
      the user's, and the field indexes of the user lose the stale fields. */
  lemma CleanupIndexes(s: Store, u: User)
    ensures var t := Cleanup(s, u);
      && (forall n, v :: v in NodeUsers(t, n) <==> v in NodeUsers(s, n) && !(v == u && Gone(s, u, n)))
      && (forall n, v :: n in UserNodes(t, v) <==> n in UserNodes(s, v) && !(v == u && Gone(s, u, n)))
  {
    forall n
      ensures n in QuietNodes(s, u) <==> Gone(s, u, n)
    {
      QuietIsGone(s, u, n);
    }
  }

  lemma QuietIsGone(s: Store, u: User, n: Node)
    ensures n in QuietNodes(s, u) <==> Gone(s, u, n)
  {
    if Gone(s, u, n) {
      var f :| f in Hash(s, u) && f.node == n;
      assert f in StaleFields(s, u);
      assert forall g :: g in Hash(s, u) && g.node == n ==> g in StaleFields(s, u);
    }
  }

  lemma {:induction false} CleanupsIndex(s: Store, users: seq<User>, n: Node, v: User)
    ensures v in NodeUsers(CleanupAll(s, users), n) <==> v in NodeUsers(s, n) && !(v in users && Gone(s, v, n))
    decreases |users|
  {
    if users != [] {
      var u, t := users[0], Cleanup(s, users[0]);
      CleanupIndexes(s, u);
      CleanupHash(s, u, v);
      CleanupsIndex(t, users[1..], n, v);
      assert v in users <==> v == u || v in users[1..];
      assert v == u ==> Hash(t, v).Keys == LiveFields(s, v).Keys && !Gone(t, v, n);
    }
  }

  /** Whom the node's index names after a report: of the users reported those with an address, of the others those it
      named before, or nobody if all were replaced. */
  lemma IndexAfterReport(s: Store, seen: Seen, n: Node, snapshot: map<User, set<IP>>, replaceAll: bool, b: Batch,
                         u: User)
    requires Agrees(s, seen) && forall v :: v in b.now ==> v in b.order
    requires Enumerates(b.order, snapshot.Keys + if replaceAll then NodeUsers(s, n) else {})
    ensures u in NodeUsers(ReportStore(s, n, snapshot, b), n) <==>
      if u in snapshot then snapshot[u] != {} else u in NodeUsers(s, n) && !replaceAll
  {
    var t := ReplaceUsers(Bump(s, n), n, snapshot, b.order);
    assert u in b.order <==> u in AsSet(b.order);
    ScriptsIndex(Bump(s, n), n, snapshot, b.order, u);
    CleanupsIndex(t, b.now, n, u);
    VisitedMeans(s, seen, n, snapshot, b.order, u);
    if u in snapshot && snapshot[u] != {} {
      var ip := Pick(snapshot[u]);
      assert Field(n, ip) in LiveFields(t, u);
    }
  }

  // Clearing users.

  lemma ClearIndexes(s: Store, u: User)
    ensures forall n, v :: v in NodeUsers(ClearUser(s, u), n) <==>
      v in NodeUsers(s, n) && !(v == u && n in UserNodes(s, u))
    ensures forall v :: UserNodes(ClearUser(s, u), v) == if v == u then {} else UserNodes(s, v)
    ensures forall v :: Hash(ClearUser(s, u), v) == if v == u then map[] else Hash(s, v)
  {
  }

  /** A cleared user has no field left and has left the index of every node that the user's own index named; the other
      users keep everything. */
  lemma {:induction false} ClearUsersMeans(s: Store, order: seq<User>, v: User, n: Node)
    ensures var t := ClearUsersStore(s, order);
      && t.clock == s.clock && Hash(t, v) == (if v in order then map[] else Hash(s, v))
      && (v in NodeUsers(t, n) <==> v in NodeUsers(s, n) && !(v in order && n in UserNodes(s, v)))
    decreases |order|
  {
    if order != [] {
      var u := order[0];
      ClearIndexes(s, u);
      ClearUsersMeans(ClearUser(s, u), order[1..], v, n);
      assert v in order <==> v == u || v in order[1..];
    }
  }

  // Clearing nodes.

  /** What a store holds for another node. */
  ghost predicate SameForNode(s: Store, t: Store, m: Node) {
    && NodeUsers(t, m) == NodeUsers(s, m)
    && (forall u :: FieldsOf(t, u, m) == FieldsOf(s, u, m))
    && (forall u, f: Field :: f.node == m ==>
      (f in Hash(t, u) <==> f in Hash(s, u)) && (f in Hash(s, u) ==> Hash(t, u)[f] == Hash(s, u)[f]))
  }

  lemma OneKeepsNode(s: Store, n: Node, u: User, ips: set<IP>, time: int, m: Node)
    requires Tagged(s) && m != n
    ensures SameForNode(s, ReplaceUser(s, n, u, ips, time), m)
  {
    ScriptIndexes(s, n, u, ips, time);
    forall v
      ensures SameElsewhere(Hash(s, v), Hash(ReplaceUser(s, n, u, ips, time), v), n)
    {
      OneKeepsOthers(s, n, u, ips, time, v);
    }
  }

  lemma {:induction false} DropsKeepNode(s: Store, n: Node, users: seq<User>, m: Node)
    requires Tagged(s)
    ensures Tagged(DropUsers(s, n, users)) && (m != n ==> SameForNode(s, DropUsers(s, n, users), m))
    decreases |users|
  {
    if users != [] {
      if m != n {
        OneKeepsNode(s, n, users[0], {}, 0, m);
      }
      OneKeepsOthers(s, n, users[0], {}, 0, users[0]);
      DropsKeepNode(ReplaceUser(s, n, users[0], {}, 0), n, users[1..], m);
    }
  }

  lemma ClearKeepsNode(s: Store, n: Node, users: seq<User>, m: Node)
    requires Tagged(s)
    ensures Tagged(ClearNode(s, n, users)) && (m != n ==> SameForNode(s, ClearNode(s, n, users), m))
    ensures ClearNode(s, n, users).clock == s.clock
  {
    var v := Bump(s, n);
    BumpKeepsNode(s, n, m);
    DropsKeepNode(v, n, users, m);
    DropUsersClock(v, n, users);
    if m != n {
      UnindexKeepsNode(DropUsers(v, n, users), n, m);
      SameTwice(s, v, DropUsers(v, n, users), m);
      SameTwice(s, DropUsers(v, n, users), ClearNode(s, n, users), m);
    }
  }

  lemma BumpKeepsNode(s: Store, n: Node, m: Node)
    requires Tagged(s)
    ensures Tagged(Bump(s, n)) && SameForNode(s, Bump(s, n), m)
  {
  }

  lemma UnindexKeepsNode(s: Store, n: Node, m: Node)
    requires m != n
    ensures SameForNode(s, s.(nodeUsers := s.nodeUsers - {n}), m)
  {
  }

  lemma SameTwice(s: Store, t: Store, v: Store, m: Node)
    requires SameForNode(s, t, m) && SameForNode(t, v, m)
    ensures SameForNode(s, v, m)
  {
  }

  predicate InPlan(plan: seq<(Node, seq<User>)>, n: Node) {
    exists i :: 0 <= i < |plan| && plan[i].0 == n
  }

  /** No node comes twice. */
  ghost predicate OnceEach(plan: seq<(Node, seq<User>)>) {
    forall i, j :: 0 <= i < j < |plan| ==> plan[i].0 != plan[j].0
  }

  lemma ClearedRest(plan: seq<(Node, seq<User>)>, n: Node)
    requires plan != []
    ensures InPlan(plan, n) <==> plan[0].0 == n || InPlan(plan[1..], n)
    ensures OnceEach(plan) ==> OnceEach(plan[1..]) && !InPlan(plan[1..], plan[0].0)
  {
    if InPlan(plan, n) && plan[0].0 != n {
      var i :| 0 <= i < |plan| && plan[i].0 == n;
      assert plan[1..][i - 1].0 == n;
    }
    if InPlan(plan[1..], n) {
      var i :| 0 <= i < |plan[1..]| && plan[1..][i].0 == n;
      assert plan[i + 1].0 == n;
    }
  }

  /** Nodes outside the plan keep everything. */
  lemma {:induction false} ClearsKeepNode(s: Store, plan: seq<(Node, seq<User>)>, m: Node)
    requires Tagged(s) && !InPlan(plan, m)
    ensures SameForNode(s, ClearNodesStore(s, plan), m) && ClearNodesStore(s, plan).clock == s.clock
    decreases |plan|
  {
    if plan != [] {
      ClearedRest(plan, m);
      ClearKeepsNode(s, plan[0].0, plan[0].1, m);
      ClearsKeepNode(ClearNode(s, plan[0].0, plan[0].1), plan[1..], m);
    }
  }

  lemma {:induction false} Forgotten(seen: Seen, plan: seq<(Node, seq<User>)>, n: Node, u: User)
    requires InPlan(plan, n)
    ensures (n, u) !in ForgetNodes(seen, plan)
    decreases |plan|
  {
    ClearedRest(plan, n);
    if InPlan(plan[1..], n) {
      Forgotten(ForgetNode(seen, plan[0].0), plan[1..], n, u);
    } else {
      ForgetsMore(ForgetNode(seen, plan[0].0), plan[1..], (n, u));
    }
  }

  lemma {:induction false} ForgetsMore(seen: Seen, plan: seq<(Node, seq<User>)>, p: (Node, User))
    requires p !in seen
    ensures p !in ForgetNodes(seen, plan)
    decreases |plan|
  {
    if plan != [] {
      ForgetsMore(ForgetNode(seen, plan[0].0), plan[1..], p);
    }
  }

  /** After a clear the given nodes have no live field for anybody, and the other nodes' live fields are as before. */
  lemma ClearNodesMeans(s: Store, seen: Seen, plan: seq<(Node, seq<User>)>, u: User, f: Field)
    requires Agrees(s, seen) && ScansFit(s, plan)
    ensures var t := ClearNodesStore(s, plan);
      && t.clock == s.clock
      && (f in LiveFields(t, u) <==> f in LiveFields(s, u) && !InPlan(plan, f.node))
      && (f in LiveFields(t, u) ==> LiveFields(t, u)[f] == LiveFields(s, u)[f])
  {
    ClearNodesAgrees(s, seen, plan);
    if InPlan(plan, f.node) {
      Forgotten(seen, plan, f.node, u);
    } else {
      ClearsKeepNode(s, plan, f.node);
    }
  }

  /** The users of whom a clear of the node removes something: its index names them, and so does the field index of a
      field they have. */
  predicate Loses(s: Store, n: Node, u: User) {
    u in NodeUsers(s, n) && exists f :: f in FieldsOf(s, u, n) && f in Hash(s, u)
  }

  lemma StrippedLoses(s: Store, n: Node, users: seq<User>, u: User)
    requires Enumerates(users, NodeUsers(s, n))
    ensures u in Stripped(s, n, users) <==> Loses(s, n, u)
  {
    assert u in users <==> u in AsSet(users);
    var both := FieldsOf(s, u, n) * Hash(s, u).Keys;
    if both != {} {
      var f := Pick(both);
    }
    assert forall f :: f in both <==> f in FieldsOf(s, u, n) && f in Hash(s, u);
  }

  lemma {:induction false} ClearNodesAffects(s: Store, plan: seq<(Node, seq<User>)>, u: User)
    requires Tagged(s) && ScansFit(s, plan) && OnceEach(plan)
    ensures u in StrippedAll(s, plan) <==> exists n :: InPlan(plan, n) && Loses(s, n, u)
    decreases |plan|
  {
    if plan != [] {
      var n, users := plan[0].0, plan[0].1;
      var t := ClearNode(s, n, users);
      ClearedRest(plan, n);
      ClearKeepsNode(s, n, users, n);
      ClearNodesAffects(t, plan[1..], u);
      StrippedLoses(s, n, users, u);
      forall m
        ensures InPlan(plan, m) <==> m == n || InPlan(plan[1..], m)
        ensures InPlan(plan[1..], m) ==> (Loses(t, m, u) <==> Loses(s, m, u))
      {
        ClearedRest(plan, m);
        if m != n {
          ClearKeepsNode(s, n, users, m);
          SameLoss(s, t, m, u);
        }
      }
    }
  }

  lemma SameLoss(s: Store, t: Store, m: Node, u: User)
    requires Tagged(s) && SameForNode(s, t, m)
    ensures Loses(t, m, u) <==> Loses(s, m, u)
  {
    assert forall f :: f in FieldsOf(s, u, m) ==> f.node == m;
  }

  // Notifying.

  /** The queues, reservations and counts of one user after a notification, in terms of what is live at its end: a
      user with a reservation is queued; every other one is written, reserved, and queued for the lapse of the first
      live field; a user that was not notified keeps everything. */
  ghost predicate UserNotified(before: Ledger, after: Ledger, t: Store, order: seq<User>, delay: nat, u: User) {
    if u !in order then SameEntries(before, after, u)
    else if u in before.throttle then
      && SameQueue(before.throttle, after.throttle, u) && SameQueue(before.expiry, after.expiry, u)
      && u in after.pending && after.pending[u] == t.clock + delay && CountOf(after, u) == CountOf(before, u)
    else
      && u in after.throttle && after.throttle[u] == t.clock + delay
      && SameQueue(before.pending, after.pending, u)
      && CountOf(after, u) == |set f | f in LiveFields(t, u) :: f.ip|
      && (u in after.expiry <==> exists f :: f in LiveFields(t, u))
      && (u in after.expiry ==> FirstToLapse(LiveFields(t, u), after.expiry[u]))
  }

  /** The rows written: one for each notified user without a reservation, with the number of its addresses. */
  ghost predicate RowsNotified(before: Ledger, after: Ledger, t: Store, order: seq<User>) {
    && before.log <= after.log
    && (forall i :: |before.log| <= i < |after.log| ==> RowOf(after.log[i], before, t, order))
    && (forall i, j :: |before.log| <= i < j < |after.log| ==> after.log[i].user != after.log[j].user)
    && (forall u :: u in order && u !in before.throttle ==>
      exists i :: |before.log| <= i < |after.log| && after.log[i].user == u)
  }

  ghost predicate Notified(before: Ledger, after: Ledger, t: Store, order: seq<User>, delay: nat) {
    (forall u :: UserNotified(before, after, t, order, delay, u)) && RowsNotified(before, after, t, order)
  }

  predicate SameQueue(before: map<User, int>, after: map<User, int>, u: User) {
    (u in after <==> u in before) && (u in before ==> after[u] == before[u])
  }

  predicate SameEntries(before: Ledger, after: Ledger, u: User) {
    && SameQueue(before.throttle, after.throttle, u) && SameQueue(before.pending, after.pending, u)
    && SameQueue(before.expiry, after.expiry, u) && CountOf(after, u) == CountOf(before, u)
  }

  /** The first millisecond at which one of the fields is 300 seconds old. */
  ghost predicate FirstToLapse(live: map<Field, int>, due: int) {
    && (exists f :: f in live && due == (live[f] + 300) * 1000)
    && (forall f :: f in live ==> due <= (live[f] + 300) * 1000)
  }

  ghost predicate RowOf(row: Summary, before: Ledger, t: Store, order: seq<User>) {
    && row.user in order && row.user !in before.throttle && row.at == t.clock
    && row.count == |set f | f in LiveFields(t, row.user) :: f.ip|
  }

  lemma NotifyMeans(y: System, b: Batch, delay: nat)
    requires Agrees(y.store, y.seen) && Splits(y.ledger, b)
    ensures Notified(y.ledger, Notify(y, b, delay).ledger, Notify(y, b, delay).store, b.order, delay)
  {
    var t := Notify(y, b, delay).store;
    CleanupAllAgrees(y.store, y.seen, b.now);
    BookedRows(y.ledger, y.store, b, delay, t);
    forall u
      ensures UserNotified(y.ledger, Booked(y.ledger, y.store, b, delay), t, b.order, delay, u)
    {
      BookedUser(y.ledger, y.store, b, delay, t, u);
    }
  }

  lemma BookedUser(l: Ledger, s: Store, b: Batch, delay: nat, t: Store, u: User)
    requires Splits(l, b) && SameOutside(s, t, {})
    ensures UserNotified(l, Booked(l, s, b, delay), t, b.order, delay, u)
  {
    var due := s.clock + delay;
    assert u in b.now <==> u in AsSet(b.now);
    assert u in b.deferred <==> u in AsSet(b.deferred);
    StampMeans(l.throttle, AsSet(b.now), due, u);
    StampMeans(l.pending, AsSet(b.deferred), due, u);
    BookedCount(l, s, b, delay, u);
    if u in b.now {
      BookedExpiry(l, s, b, delay, u);
      assert LiveFields(t, u) == LiveFields(s, u);
    }
  }

  lemma StampMeans(queue: map<User, int>, users: set<User>, due: int, u: User)
    ensures var after := Stamp(queue, users, due);
      if u in users then u in after && after[u] == due else SameQueue(queue, after, u)
  {
  }

  lemma BookedCount(l: Ledger, s: Store, b: Batch, delay: nat, u: User)
    ensures CountOf(Booked(l, s, b, delay), u) ==
      if u in b.now then |set f | f in LiveFields(s, u) :: f.ip| else CountOf(l, u)
    ensures u !in b.now ==> SameQueue(l.expiry, Booked(l, s, b, delay).expiry, u)
  {
    assert LiveIPs(s, u) == set f | f in LiveFields(s, u) :: f.ip;
  }

  lemma BookedExpiry(l: Ledger, s: Store, b: Batch, delay: nat, u: User)
    requires u in b.now
    ensures var after := Booked(l, s, b, delay).expiry;
      && (u in after <==> exists f :: f in LiveFields(s, u))
      && (u in after ==> FirstToLapse(LiveFields(s, u), after[u]))
  {
    ExpiryMeans(s, u);
  }

  lemma BookedRows(l: Ledger, s: Store, b: Batch, delay: nat, t: Store)
    requires Splits(l, b) && SameOutside(s, t, {})
    ensures RowsNotified(l, Booked(l, s, b, delay), t, b.order)
  {
    var rows := Rows(s, b.now);
    assert Booked(l, s, b, delay).log == l.log + rows;
    forall i | 0 <= i < |rows|
      ensures RowOf(rows[i], l, t, b.order)
    {
      assert b.now[i] in b.now;
      assert LiveFields(t, b.now[i]) == LiveFields(s, b.now[i]);
      assert LiveIPs(s, b.now[i]) == set f | f in LiveFields(t, b.now[i]) :: f.ip;
    }
    RowsAppended(l, Booked(l, s, b, delay), rows, b.now, t, b.order);
  }

  lemma RowsAppended(l: Ledger, m: Ledger, rows: seq<Summary>, now: seq<User>, t: Store, order: seq<User>)
    requires m.log == l.log + rows && |rows| == |now| && forall i :: 0 <= i < |rows| ==> rows[i].user == now[i]
    requires forall i :: 0 <= i < |rows| ==> RowOf(rows[i], l, t, order)
    requires Distinct(now) && forall u :: u in now <==> u in order && u !in l.throttle
    ensures RowsNotified(l, m, t, order)
  {
    var n := |l.log|;
    assert forall i :: n <= i < |m.log| ==> m.log[i] == rows[i - n];
    forall u | u in order && u !in l.throttle
      ensures exists i :: n <= i < |m.log| && m.log[i].user == u
    {
      var i :| 0 <= i < |now| && now[i] == u;
      assert m.log[n + i] == rows[i];
    }
    forall i, j | n <= i < j < |m.log|
      ensures m.log[i].user != m.log[j].user
    {
      assert m.log[i] == rows[i - n] && m.log[j] == rows[j - n];
    }
  }

  lemma ExpiryMeans(s: Store, u: User)
    ensures LiveFields(s, u) != map[] <==> exists f :: f in LiveFields(s, u)
    ensures LiveFields(s, u) != map[] ==> FirstToLapse(LiveFields(s, u), NextLapse(s, u))
  {
    var live := LiveFields(s, u);
    if live != map[] {
      NextLapseIsFirst(s, u);
      var f := Pick(live.Keys);
      assert live[f] in Times(s, u);
      assert Least(Times(s, u)) in Times(s, u);
    } else {
      assert forall f :: f !in live;
    }
  }

  // Whole operations.

  /** What a report leaves, in terms of the lists reported: of each reported user's list the node's live fields are
      exactly the first 64 different addresses, stamped with the present second; other nodes' live fields stay; other
      users keep theirs, or have none of the node any more if all were replaced; the node's index names whoever still
      has something there; and everybody visited is notified. */
  ghost predicate ReportSeen(y: System, z: System, n: Node, devices: map<User, seq<string>>, replaceAll: bool,
                             parse: string -> Option<IP>, order: seq<User>, delay: nat) {
    && z.store.clock == y.store.clock
    && Enumerates(order, devices.Keys + if replaceAll then NodeUsers(y.store, n) else {})
    && (forall u, ip :: u in devices ==>
          (Field(n, ip) in LiveFields(z.store, u) <==> Counts64(devices[u], parse, ip)))
    && (forall u :: u in devices ==> Stamped(LiveFields(z.store, u), n, y.store.clock / 1000))
    && (forall u, f: Field :: f.node != n ==>
          (f in LiveFields(z.store, u) <==> f in LiveFields(y.store, u))
          && (f in LiveFields(y.store, u) ==> LiveFields(z.store, u)[f] == LiveFields(y.store, u)[f]))
    && (replaceAll ==> forall u, ip :: u !in devices ==> Field(n, ip) !in LiveFields(z.store, u))
    && (!replaceAll ==> forall u :: u !in devices ==> LiveFields(z.store, u) == LiveFields(y.store, u))
    && (forall u :: u in NodeUsers(z.store, n) <==>
          if u in devices then exists ip :: Counts64(devices[u], parse, ip)
          else u in NodeUsers(y.store, n) && !replaceAll)
    && Notified(y.ledger, z.ledger, z.store, order, delay)
  }

  /** The sets of addresses of a report, as its lists give them. */
  ghost predicate Asks(snapshot: map<User, set<IP>>, devices: map<User, seq<string>>, parse: string -> Option<IP>) {
    snapshot.Keys == devices.Keys
    && forall u, ip :: u in devices ==> (ip in snapshot[u] <==> Counts64(devices[u], parse, ip))
  }

  lemma ReportObserved(y: System, n: Node, snapshot: map<User, set<IP>>, devices: map<User, seq<string>>,
                       replaceAll: bool, parse: string -> Option<IP>, b: Batch, delay: nat)
    requires Agrees(y.store, y.seen) && Possible(y, ReplaceNode(n, snapshot, replaceAll, b))
    requires Asks(snapshot, devices, parse)
    ensures ReportSeen(y, After(y, ReplaceNode(n, snapshot, replaceAll, b), delay), n, devices, replaceAll, parse,
                       b.order, delay)
  {
    var s, x := y.store, WithReport(y, n, snapshot, b.order);
    var t := ReportStore(s, n, snapshot, b);
    BumpAgrees(s, y.seen, n);
    ReplaceUsersAgrees(Bump(s, n), y.seen, n, snapshot, b.order);
    NotifyMeans(x, b, delay);
    ReportMeans(s, y.seen, n, snapshot, replaceAll, b);
    LiveAfter(s, t, n, snapshot, devices, replaceAll, parse);
    forall u
      ensures u in NodeUsers(t, n) <==>
        if u in devices then exists ip :: Counts64(devices[u], parse, ip) else u in NodeUsers(s, n) && !replaceAll
    {
      IndexAfterReport(s, y.seen, n, snapshot, replaceAll, b, u);
      if u in devices && snapshot[u] != {} {
        var ip := Pick(snapshot[u]);
      }
    }
  }

  lemma LiveAfter(s: Store, t: Store, n: Node, snapshot: map<User, set<IP>>, devices: map<User, seq<string>>,
                  replaceAll: bool, parse: string -> Option<IP>)
    requires LiveAfterReport(s, t, n, snapshot, replaceAll) && Asks(snapshot, devices, parse)
    ensures forall u, ip :: u in devices ==> (Field(n, ip) in LiveFields(t, u) <==> Counts64(devices[u], parse, ip))
    ensures forall u :: u in devices ==> Stamped(LiveFields(t, u), n, s.clock / 1000)
    ensures forall u, f: Field :: f.node != n ==>
      (f in LiveFields(t, u) <==> f in LiveFields(s, u))
      && (f in LiveFields(s, u) ==> LiveFields(t, u)[f] == LiveFields(s, u)[f])
    ensures replaceAll ==> forall u, ip :: u !in devices ==> Field(n, ip) !in LiveFields(t, u)
    ensures !replaceAll ==> forall u :: u !in devices ==> LiveFields(t, u) == LiveFields(s, u)
  {
    forall u, ip
      ensures u in devices ==> (Field(n, ip) in LiveFields(t, u) <==> Counts64(devices[u], parse, ip))
      ensures u !in devices && replaceAll ==> Field(n, ip) !in LiveFields(t, u)
    {
      assert Field(n, ip).node == n;
    }
    forall u, f: Field | f.node != n
      ensures f in LiveFields(t, u) <==> f in LiveFields(s, u)
      ensures f in LiveFields(s, u) ==> LiveFields(t, u)[f] == LiveFields(s, u)[f]
    {
      assert SameElsewhere(LiveFields(s, u), LiveFields(t, u), n);
    }
  }

  /** A listing shows the users asked for that have a live field, and for each of them the addresses of its live
      fields. */
  ghost predicate Shows(s: Store, users: seq<User>, found: map<User, seq<IP>>) {
    && (forall u :: u in found <==> u in users && exists f :: f in LiveFields(s, u))
    && (forall u, ip :: u in found ==> (ip in found[u] <==> exists m :: Field(m, ip) in LiveFields(s, u)))
  }

  /** A listed user has left the index of each node whose fields of the user are all stale. */
  ghost predicate IndexesCleaned(s: Store, t: Store, users: seq<User>) {
    forall u, n :: u in NodeUsers(t, n) <==> u in NodeUsers(s, n) && !(u in users && Gone(s, u, n))
  }

  /** What clearing users leaves in the store: nothing for them, everything for the others, and their nodes no longer
      name them. */
  ghost predicate UsersGone(s: Store, t: Store, users: seq<User>) {
    && t.clock == s.clock
    && (forall u :: LiveFields(t, u) == if u in users then map[] else LiveFields(s, u))
    && (forall u, n :: u in NodeUsers(t, n) <==> u in NodeUsers(s, n) && !(u in users && n in UserNodes(s, u)))
  }

  ghost predicate ClearSeen(y: System, z: System, users: seq<User>, order: seq<User>, delay: nat) {
    && UsersGone(y.store, z.store, users) && Enumerates(order, AsSet(users))
    && Notified(y.ledger, z.ledger, z.store, order, delay)
  }

  lemma ClearObserved(y: System, users: seq<User>, b: Batch, delay: nat)
    requires Agrees(y.store, y.seen) && Possible(y, ClearUsers(b)) && Enumerates(b.order, AsSet(users))
    ensures ClearSeen(y, After(y, ClearUsers(b), delay), users, b.order, delay)
  {
    ClearUsersAgrees(y.store, y.seen, b.order);
    NotifyMeans(WithoutUsers(y, b.order), b, delay);
    ClearLeaves(y.store, y.seen, users, b.order, b.now);
  }

  lemma ClearLeaves(s: Store, seen: Seen, users: seq<User>, order: seq<User>, now: seq<User>)
    requires Agrees(s, seen) && Enumerates(order, AsSet(users)) && forall u :: u in now ==> u in order
    ensures UsersGone(s, CleanupAll(ClearUsersStore(s, order), now), users)
  {
    var t := ClearUsersStore(s, order);
    ClearUsersAgrees(s, seen, order);
    CleanupAllAgrees(t, ForgetUsers(seen, order), now);
    assert t.clock == s.clock;
    assert forall u :: (u in order <==> u in AsSet(order)) && (u in users <==> u in AsSet(users));
    forall u
      ensures LiveFields(t, u) == if u in users then map[] else LiveFields(s, u)
    {
      ClearedLive(s, order, u);
    }
    forall u, n
      ensures u in NodeUsers(CleanupAll(t, now), n) <==>
        u in NodeUsers(s, n) && !(u in users && n in UserNodes(s, u))
    {
      ClearedIndex(s, order, now, u, n);
    }
  }

  lemma ClearedLive(s: Store, order: seq<User>, u: User)
    ensures LiveFields(ClearUsersStore(s, order), u) == if u in order then map[] else LiveFields(s, u)
  {
    ClearUsersMeans(s, order, u, 0);
  }

  lemma ClearedIndex(s: Store, order: seq<User>, now: seq<User>, u: User, n: Node)
    requires forall v :: v in now ==> v in order
    ensures u in NodeUsers(CleanupAll(ClearUsersStore(s, order), now), n) <==>
      u in NodeUsers(s, n) && !(u in order && n in UserNodes(s, u))
  {
    ClearUsersMeans(s, order, u, n);
    CleanupsIndex(ClearUsersStore(s, order), now, n, u);
    assert u in order ==> !Gone(ClearUsersStore(s, order), u, n);
  }

  /** What clearing nodes leaves in the store: no live field of theirs for anybody, and the other nodes' as they
      were. */
  ghost predicate NodesGone(s: Store, t: Store, nodes: seq<Node>) {
    && t.clock == s.clock
    && forall u, f :: (f in LiveFields(t, u) <==> f in LiveFields(s, u) && f.node !in nodes)
                      && (f in LiveFields(t, u) && f in LiveFields(s, u) ==> LiveFields(t, u)[f] == LiveFields(s, u)[f])
  }

  /** And exactly the users of whom something was removed are notified. */
  ghost predicate ClearNodesSeen(y: System, z: System, nodes: seq<Node>, order: seq<User>, delay: nat) {
    && NodesGone(y.store, z.store, nodes)
    && (forall i, j :: 0 <= i < j < |order| ==> order[i] < order[j])
    && (forall u :: u in order <==> exists n :: n in nodes && Loses(y.store, n, u))
    && Notified(y.ledger, z.ledger, z.store, order, delay)
  }

  lemma ClearNodesObserved(y: System, nodes: seq<Node>, plan: seq<(Node, seq<User>)>, b: Batch, delay: nat)
    requires Agrees(y.store, y.seen) && Possible(y, ClearNodes(plan, b)) && OnceEach(plan)
    requires forall n :: n in nodes <==> InPlan(plan, n)
    ensures ClearNodesSeen(y, After(y, ClearNodes(plan, b), delay), nodes, b.order, delay)
  {
    ClearNodesAgrees(y.store, y.seen, plan);
    NotifyMeans(WithoutNodes(y, plan), b, delay);
    ClearNodesLeaves(y.store, y.seen, nodes, plan, b.now);
    AffectedByClear(y.store, nodes, plan, b.order);
  }

  lemma ClearNodesLeaves(s: Store, seen: Seen, nodes: seq<Node>, plan: seq<(Node, seq<User>)>, now: seq<User>)
    requires Agrees(s, seen) && ScansFit(s, plan) && forall n :: n in nodes <==> InPlan(plan, n)
    ensures NodesGone(s, CleanupAll(ClearNodesStore(s, plan), now), nodes)
  {
    var t := ClearNodesStore(s, plan);
    ClearNodesAgrees(s, seen, plan);
    CleanupAllAgrees(t, ForgetNodes(seen, plan), now);
    forall u, f
      ensures f in LiveFields(t, u) <==> f in LiveFields(s, u) && f.node !in nodes
      ensures f in LiveFields(t, u) && f in LiveFields(s, u) ==> LiveFields(t, u)[f] == LiveFields(s, u)[f]
    {
      ClearNodesMeans(s, seen, plan, u, f);
    }
  }

  lemma AffectedByClear(s: Store, nodes: seq<Node>, plan: seq<(Node, seq<User>)>, order: seq<User>)
    requires Tagged(s) && ScansFit(s, plan) && OnceEach(plan) && forall n :: n in nodes <==> InPlan(plan, n)
    requires Enumerates(order, StrippedAll(s, plan))
    ensures forall u :: u in order <==> exists n :: n in nodes && Loses(s, n, u)
  {
    forall u
      ensures u in order <==> exists n :: n in nodes && Loses(s, n, u)
    {
      assert u in order <==> u in AsSet(order);
      ClearNodesAffects(s, plan, u);
    }
  }

  /** One user after a flush: if not returned, everything is as before; if returned with a reservation, the user is
      queued again; if returned without one, written, reserved, and queued for the lapse of the first live field. */
  ghost predicate UserFlushed(before: Ledger, after: Ledger, t: Store, due: seq<DueQueue.Due>, delay: nat, u: User) {
    if !DueQueue.Lists(due, u) then SameEntries(before, after, u)
    else if u in before.throttle then
      && SameQueue(before.throttle, after.throttle, u) && CountOf(after, u) == CountOf(before, u)
      && u in after.pending && after.pending[u] == t.clock + delay
    else
      && u in after.throttle && after.throttle[u] == t.clock + delay
      && CountOf(after, u) == |set f | f in LiveFields(t, u) :: f.ip|
      && (u in after.expiry <==> exists f :: f in LiveFields(t, u))
      && (u in after.expiry ==> FirstToLapse(LiveFields(t, u), after.expiry[u]))
  }

  /** What a flush takes off its queues: of each range the entries of the users it returns, which are not due any
      more. */
  ghost predicate Taken(after: Ledger, clock: int, ps: seq<DueQueue.Entry>, es: seq<DueQueue.Entry>,
                        due: seq<DueQueue.Due>) {
    && (forall x :: x in ps && DueQueue.Lists(due, x.user) ==>
          !(x.user in after.pending && after.pending[x.user] <= clock))
    && (forall x :: x in es && DueQueue.Lists(due, x.user) ==>
          !(x.user in after.expiry && after.expiry[x.user] <= clock))
  }

  ghost predicate FlushSeen(y: System, z: System, ps: seq<DueQueue.Entry>, es: seq<DueQueue.Entry>,
                            due: seq<DueQueue.Due>, order: seq<User>, delay: nat) {
    && z.store.clock == y.store.clock && (forall u :: LiveFields(z.store, u) == LiveFields(y.store, u))
    && Taken(z.ledger, y.store.clock, ps, es, due)
    && (forall u :: UserFlushed(y.ledger, z.ledger, z.store, due, delay, u))
    && RowsNotified(y.ledger, z.ledger, z.store, order) && (forall u :: u in order <==> DueQueue.Lists(due, u))
  }

  lemma FlushObserved(y: System, limit: nat, ps: seq<DueQueue.Entry>, es: seq<DueQueue.Entry>, due: seq<DueQueue.Due>,
                      b: Batch, delay: nat)
    requires Agrees(y.store, y.seen) && CanFlush(y, limit, due, b) && ValidDelay(delay)
    requires forall i :: 0 <= i < |due| ==> DueQueue.FoundIn(due[i], ps, es)
    ensures FlushSeen(y, Flush(y, due, b, delay), ps, es, due, b.order, delay)
  {
    var clock := y.store.clock;
    var z := Notify(y, b, delay);
    CleanupAllAgrees(y.store, y.seen, b.now);
    NotifyMeans(y, b, delay);
    RangesTaken(z.ledger, clock, ps, es, due);
    forall u
      ensures u in b.order <==> DueQueue.Lists(due, u)
    {
      assert u in b.order <==> u in AsSet(b.order);
    }
    forall u
      ensures UserFlushed(y.ledger, Flush(y, due, b, delay).ledger, z.store, due, delay, u)
    {
      assert UserNotified(y.ledger, z.ledger, z.store, b.order, delay, u);
      TakenUser(y.ledger, z.ledger, z.store, due, b.order, delay, u);
    }
  }

  ghost function Trimmed(l: Ledger, due: seq<DueQueue.Due>, clock: int): Ledger {
    l.(pending := Kept(l.pending, due, clock, true), expiry := Kept(l.expiry, due, clock, false))
  }

  lemma TakenUser(before: Ledger, l: Ledger, t: Store, due: seq<DueQueue.Due>, order: seq<User>, delay: nat, u: User)
    requires UserNotified(before, l, t, order, delay, u) && delay > 0 && (u in order <==> DueQueue.Lists(due, u))
    ensures UserFlushed(before, Trimmed(l, due, t.clock), t, due, delay, u)
  {
    assert FlaggedPending(due, u) || FlaggedExpiry(due, u) ==> DueQueue.Lists(due, u);
  }

  lemma RangesTaken(l: Ledger, clock: int, ps: seq<DueQueue.Entry>, es: seq<DueQueue.Entry>, due: seq<DueQueue.Due>)
    requires forall i :: 0 <= i < |due| ==> DueQueue.FoundIn(due[i], ps, es)
    ensures Taken(Trimmed(l, due, clock), clock, ps, es, due)
  {
    forall x | x in ps && DueQueue.Lists(due, x.user)
      ensures FlaggedPending(due, x.user)
    {
      var i :| 0 <= i < |due| && due[i].user == x.user;
      assert DueQueue.FoundIn(due[i], ps, es) && DueQueue.Among(ps, x.user);
    }
    forall x | x in es && DueQueue.Lists(due, x.user)
      ensures FlaggedExpiry(due, x.user)
    {
      var i :| 0 <= i < |due| && due[i].user == x.user;
      assert DueQueue.FoundIn(due[i], ps, es) && DueQueue.Among(es, x.user);
    }
  }
}
