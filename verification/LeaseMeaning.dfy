/** What the calls of the lease service mean, told in what went in and what came out: what a start makes, what a
    snapshot lists, what an acknowledgement leaves on record. */
module LeaseMeaning {
  import opened Collections
  import opened Ordering
  import opened DiagnosticLease

  // Cleaning up.

  /** A session leaves the table a day after its expiry and no earlier; one that ran out is disabled and expired. */
  lemma CleaningMeans(sessions: map<string, Session>, now: Time, c: string)
    ensures c in CleanedSessions(sessions, now) <==>
      c in sessions && now - sessions[c].expires <= 24 * 3600 * SECOND
    ensures c in CleanedSessions(sessions, now) ==>
      var s, t := sessions[c], CleanedSessions(sessions, now)[c];
      t == if s.enabled && now > s.expires then s.(enabled := false, state := Expired) else s
  {
  }

  // Starting.

  /** A record of the slot that is at most a day old. */
  predicate Remembered(l: Lease, slot: Slot, now: Time) {
    slot in l.records && now - l.records[slot].created <= 24 * 3600 * SECOND
  }

  /** The customer's session that the slot remembers, still in the table. */
  predicate Found(l: Lease, i: StartInput, now: Time) {
    var slot := Slot(i.operator, i.key);
    && Remembered(l, slot, now) && l.records[slot].customer == i.customer && i.customer in l.sessions
    && now - l.sessions[i.customer].expires <= 24 * 3600 * SECOND
    && l.sessions[i.customer].id == l.records[slot].session
  }

  predicate Running(l: Lease, c: string, now: Time) {
    c in l.sessions && l.sessions[c].enabled && now < l.sessions[c].expires
  }

  /** When a start is refused, and with which error. */
  lemma StartVerdict(l: Lease, i: StartInput, now: Time, id: string)
    ensures var slot, r := Slot(i.operator, i.key), Started(l, i, now, id).1;
      && (r == Err(IdempotencyConflict) <==> Remembered(l, slot, now) && l.records[slot].customer != i.customer)
      && (r == Err(LimitReached) <==>
            && !(Remembered(l, slot, now) && l.records[slot].customer != i.customer)
            && !Found(l, i, now) && !Running(l, i.customer, now)
            && |set c | c in l.sessions && Running(l, c, now)| >= 10)
      && (r.Err? ==> r.error == IdempotencyConflict || r.error == LimitReached)
      && (r.Ok? ==> (r.value.isNew <==> !Found(l, i, now) && !Running(l, i.customer, now)))
  {
    var c := CleanedSessions(l.sessions, now);
    assert LiveCustomers(c, now) == set d | d in l.sessions && Running(l, d, now);
  }

  /** What a new session is, and that nothing else in the table changes but by cleaning up. */
  lemma StartMeans(l: Lease, i: StartInput, now: Time, id: string)
    requires Started(l, i, now, id).1.Ok? && Started(l, i, now, id).1.value.isNew
    ensures var r := Started(l, i, now, id); var s := r.1.value.session;
      && s.id == id && s.customer == i.customer && s.operator == i.operator
      && s.created == s.issued == now && s.expires == now + 900 * SECOND
      && s.revision == 1 && s.enabled && s.state == Pending && s.acks == map[]
      && Ascending(s.targets) && multiset(s.targets) == multiset(i.targets)
      && r.0.version == l.version + 1 && r.0.epoch == l.epoch
      && r.0.sessions == CleanedSessions(l.sessions, now)[i.customer := s]
  {
    assert Ascending(Ordered(i.targets)) && multiset(Ordered(i.targets)) == multiset(i.targets);
  }

  /** A start that finds a session gives it back as it is, and opens none. */
  lemma FoundMeans(l: Lease, i: StartInput, now: Time, id: string)
    requires Started(l, i, now, id).1.Ok? && !Started(l, i, now, id).1.value.isNew
    ensures var r := Started(l, i, now, id); var s := r.1.value.session;
      && i.customer in l.sessions && s.id == l.sessions[i.customer].id && s.targets == l.sessions[i.customer].targets
      && s.expires == l.sessions[i.customer].expires && s.revision == l.sessions[i.customer].revision
      && r.0.version == l.version && r.0.sessions == CleanedSessions(l.sessions, now)
      && s == r.0.sessions[i.customer]
  {
  }

  /** A refused start opens nothing and remembers nothing. */
  lemma RefusedMeans(l: Lease, i: StartInput, now: Time, id: string)
    requires Started(l, i, now, id).1.Err?
    ensures var r := Started(l, i, now, id).0;
      && r.version == l.version && r.sessions == CleanedSessions(l.sessions, now)
      && r.records == CleanedRecords(l.records, now)
  {
  }

  // Stopping.

  /** A stop finds the session by both its names, disables it at a new revision, and touches nothing else. */
  lemma StopMeans(l: Lease, customer: string, id: string)
    ensures var r := Halted(l, customer, id);
      var known := customer in l.sessions && l.sessions[customer].id == id;
      && (r.1 == Err(NotFound) <==> !known) && (r.1.Err? <==> !known)
      && (!known || !l.sessions[customer].enabled ==> r.0 == l)
      && (known ==> r.1.value == r.0.sessions[customer])
      && (known && l.sessions[customer].enabled ==>
            var s, t := l.sessions[customer], r.0.sessions[customer];
            && !t.enabled && t.revision == s.revision + 1
            && t == s.(enabled := false, revision := t.revision, state := t.state)
            && (t.state == Stopped || t.state == Stopping) && (s.targets == [] ==> t.state == Stopped)
            && r.0 == l.(version := l.version + 1, sessions := l.sessions[customer := t]))
  {
  }

  // Snapshots.

  /** A snapshot lists exactly the node's running sessions of the table it finds, in ascending order of identifiers,
      and takes nothing from the table but by cleaning up. */
  lemma SnapshotMeans(w: World, e: Event)
    requires Enabled(w, e) && e.SnapshotCall?
    ensures forall x :: x in e.entries <==> exists c :: c in w.lease.sessions && IsEntry(w.lease.sessions[c], e, x)
    ensures forall i, j :: 0 <= i < j < |e.entries| ==> Below(e.entries[i].session, e.entries[j].session)
    ensures var v := Apply(w, e);
      && v.lease.version == w.lease.version && v.lease.sessions == CleanedSessions(w.lease.sessions, e.now)
      && v.lease.records == CleanedRecords(w.lease.records, e.now)
      && Query(e.node, e.request) in v.lease.bindings
  {
    var after := CleanedSessions(w.lease.sessions, e.now);
    forall x
      ensures x in e.entries <==> exists c :: c in w.lease.sessions && IsEntry(w.lease.sessions[c], e, x)
    {
      if x in e.entries {
        var c :| c in after && Lists(after[c], e.node, e.now) && x == EntryOf(after[c]);
        assert IsEntry(w.lease.sessions[c], e, x);
      }
      if c :| c in w.lease.sessions && IsEntry(w.lease.sessions[c], e, x) {
        assert Lists(after[c], e.node, e.now) && x == EntryOf(after[c]);
      }
    }
  }

  /** The entry of a session that runs for the node. */
  predicate IsEntry(s: Session, e: Event, x: Entry)
    requires e.SnapshotCall?
  {
    && s.enabled && e.now <= s.expires && e.node in s.targets
    && x == Entry(s.id, s.customer, s.revision, s.issued / 1_000_000_000, s.expires / 1_000_000_000, 900)
  }

  /** The session goes on: only acknowledgements and the state they determine change. */
  predicate GoesOn(s: Session, t: Session) {
    t == s.(acks := t.acks, state := t.state)
  }

  /** Until it expires or is stopped a session stays enabled. At the instant of its expiry a new start may replace
      it. */
  lemma RunningStep(w: World, e: Event, c: string)
    requires c in w.lease.sessions && w.lease.sessions[c].enabled && e.now <= w.lease.sessions[c].expires
    requires e.StopCall? ==> e.customer != c || e.session != w.lease.sessions[c].id
    requires e.StartCall? && e.input.customer == c ==> e.now < w.lease.sessions[c].expires
    ensures c in Apply(w, e).lease.sessions && GoesOn(w.lease.sessions[c], Apply(w, e).lease.sessions[c])
  {
    match e
    case StartCall(i, now, id) => StartCases(w.lease, i, now, id);
    case StopCall(_, _, _) =>
    case SnapshotCall(_, _, _, _, _, _) =>
    case AckCall(node, runtime, p, now) => AckOnlyAcks(w.lease, node, runtime, p, now);
  }

  /** Nothing in the run from step `j` to step `k` ends the session of customer `c`. */
  ghost predicate LeftAlone(es: seq<Event>, j: nat, k: nat, c: string, id: string, expires: Time) {
    forall m :: j <= m < k <= |es| ==>
      && es[m].now <= expires
      && (es[m].StopCall? ==> es[m].customer != c || es[m].session != id)
      && (es[m].StartCall? && es[m].input.customer == c ==> es[m].now < expires)
  }

  lemma {:induction false} RunningStays(ws: seq<World>, es: seq<Event>, j: nat, k: nat, c: string)
    requires Run(ws, es) && j <= k < |ws| && c in ws[j].lease.sessions && ws[j].lease.sessions[c].enabled
    requires LeftAlone(es, j, k, c, ws[j].lease.sessions[c].id, ws[j].lease.sessions[c].expires)
    ensures c in ws[k].lease.sessions && GoesOn(ws[j].lease.sessions[c], ws[k].lease.sessions[c])
    decreases k
  {
    if j < k {
      RunningStays(ws, es, j, k - 1, c);
      RunningStep(ws[k - 1], es[k - 1], c);
      assert ws[k - 1 + 1] == Apply(ws[k - 1], es[k - 1]);
    }
  }

  /** A session that a start has made is in every later snapshot for each node of the start's targets, with its
      identifier, customer, first revision and times in seconds, until it expires or is stopped. */
  lemma StartIsListed(ws: seq<World>, es: seq<Event>, j: nat, k: nat)
    requires Run(ws, es) && j < k < |es| && es[j].StartCall? && es[k].SnapshotCall?
    requires var r := Started(ws[j].lease, es[j].input, es[j].now, es[j].id).1; r.Ok? && r.value.isNew
    requires es[k].node in es[j].input.targets
    requires LeftAlone(es, j + 1, k + 1, es[j].input.customer, es[j].id, es[j].now + 900 * SECOND)
    ensures Entry(es[j].id, es[j].input.customer, 1, es[j].now / SECOND, (es[j].now + 900 * SECOND) / SECOND, 900)
      in es[k].entries
  {
    var c := es[j].input.customer;
    StartedAt(ws, es, j);
    RunningStays(ws, es, j + 1, k + 1, c);
    SameMembers(ws[j + 1].lease.sessions[c].targets, es[j].input.targets, es[k].node);
    ListedFrom(ws, es, k);
    RunningIsListed(es[k].entries, ws[k + 1].lease.sessions, es[k].node, es[k].now, c);
  }

  lemma StartedAt(ws: seq<World>, es: seq<Event>, j: nat)
    requires Run(ws, es) && j < |es| && es[j].StartCall?
    requires var r := Started(ws[j].lease, es[j].input, es[j].now, es[j].id).1; r.Ok? && r.value.isNew
    ensures es[j].input.customer in ws[j + 1].lease.sessions
    ensures var s := ws[j + 1].lease.sessions[es[j].input.customer];
      && s.id == es[j].id && s.customer == es[j].input.customer && s.enabled && s.revision == 1
      && s.issued == es[j].now && s.expires == es[j].now + 900 * SECOND && s.acks == map[]
      && multiset(s.targets) == multiset(es[j].input.targets)
  {
    StartMeans(ws[j].lease, es[j].input, es[j].now, es[j].id);
    assert ws[j + 1] == Apply(ws[j], es[j]);
  }

  lemma RunningIsListed(entries: seq<Entry>, sessions: map<string, Session>, node: int, now: Time, c: string)
    requires IsListing(entries, sessions, node, now) && c in sessions
    requires sessions[c].enabled && now <= sessions[c].expires && node in sessions[c].targets
    ensures var s := sessions[c];
      Entry(s.id, s.customer, s.revision, s.issued / SECOND, s.expires / SECOND, 900) in entries
  {
    assert Lists(sessions[c], node, now);
    assert EntryOf(sessions[c]) in entries;
  }

  lemma SameMembers(s: seq<int>, t: seq<int>, x: int)
    requires multiset(s) == multiset(t) && x in t
    ensures x in s
  {
    assert x in multiset(t);
  }

  // The snapshot an acknowledgement answers.

  predicate Serves(e: Event, node: int, request: string) {
    e.SnapshotCall? && e.node == node && e.request == request
  }

  /** The last snapshot before `k` that went out for this node and request. */
  ghost predicate LastServed(es: seq<Event>, k: nat, node: int, request: string, j: nat) {
    && j < k <= |es| && Serves(es[j], node, request)
    && forall m: nat :: j < m < k ==> !Serves(es[m], node, request)
  }

  /** The acknowledgement at `k` names the request, epoch and version of that snapshot, at most a minute later. */
  ghost predicate Answers(ws: seq<World>, es: seq<Event>, k: nat, j: nat)
    requires |ws| == |es| + 1 && k < |es| && es[k].AckCall?
  {
    && LastServed(es, k, es[k].node, es[k].payload.request, j) && es[k].now - es[j].now <= 60 * SECOND
    && es[k].payload.epoch == ws[0].lease.epoch && es[k].payload.version == ws[j].lease.version
  }

  /** The report is of a session on the list, at the revision listed. */
  ghost predicate OnList(entries: seq<Entry>, p: Report) {
    exists x :: x in entries && x.session == p.session && x.revision == p.revision
  }

  /** The first `n` reports are on the list. */
  ghost predicate AllOnList(entries: seq<Entry>, reports: seq<Report>, n: nat)
    requires n <= |reports|
  {
    forall h :: 0 <= h < n ==> OnList(entries, reports[h])
  }

  lemma OnListMeans(listed: map<string, int>, entries: seq<Entry>, p: Report)
    requires BoundTo(listed, entries)
    ensures OnList(entries, p) <==> Admissible(listed, p)
  {
  }

  /** The binding of a request is the snapshot that went out last for it. */
  ghost predicate BoundAt(ws: seq<World>, es: seq<Event>, b: Binding, j: nat)
    requires |ws| == |es| + 1 && j < |es|
  {
    && es[j].SnapshotCall? && b.listed == es[j].listed && b.at == es[j].now
    && b.epoch == ws[0].lease.epoch && b.version == ws[j].lease.version
  }

  ghost predicate BindingTells(ws: seq<World>, es: seq<Event>, k: nat, q: Query)
    requires |ws| == |es| + 1 && k < |ws|
  {
    && (q in ws[k].lease.bindings ==>
          exists j: nat :: LastServed(es, k, q.node, q.id, j) && BoundAt(ws, es, ws[k].lease.bindings[q], j))
    && (forall j: nat :: LastServed(es, k, q.node, q.id, j) && ws[k].clock - es[j].now <= 60 * SECOND ==>
          q in ws[k].lease.bindings)
  }

  lemma {:induction false} SameEpoch(ws: seq<World>, es: seq<Event>, k: nat)
    requires Run(ws, es) && k < |ws|
    ensures ws[k].lease.epoch == ws[0].lease.epoch
  {
    if k > 0 {
      SameEpoch(ws, es, k - 1);
      EpochStep(ws[k - 1], es[k - 1]);
      assert ws[k - 1 + 1] == Apply(ws[k - 1], es[k - 1]);
    }
  }

  lemma EpochStep(w: World, e: Event)
    ensures Apply(w, e).lease.epoch == w.lease.epoch
  {
    if e.StartCall? {
      StartCases(w.lease, e.input, e.now, e.id);
    }
  }

  /** A step other than its own snapshot leaves a binding as it is, or sweeps it when its minute is over. */
  predicate BindingKept(v: World, w: World, q: Query) {
    && v.clock <= w.clock
    && (q in w.lease.bindings ==> q in v.lease.bindings && w.lease.bindings[q] == v.lease.bindings[q])
    && (q in v.lease.bindings && w.clock - v.lease.bindings[q].at <= 60 * SECOND ==> q in w.lease.bindings)
  }

  lemma BindingStep(w: World, e: Event, q: Query)
    requires Enabled(w, e) && !Serves(e, q.node, q.id)
    ensures BindingKept(w, Apply(w, e), q)
  {
    if e.StartCall? {
      StartCases(w.lease, e.input, e.now, e.id);
    } else if e.AckCall? {
      AckOnlyAcks(w.lease, e.node, e.runtime, e.payload, e.now);
    }
  }

  lemma {:induction false} BindingIsLastServed(ws: seq<World>, es: seq<Event>, k: nat, q: Query)
    requires Run(ws, es) && k < |ws|
    ensures BindingTells(ws, es, k, q)
  {
    if k > 0 {
      BindingIsLastServed(ws, es, k - 1, q);
      StepAt(ws, es, k - 1);
      if Serves(es[k - 1], q.node, q.id) {
        SameEpoch(ws, es, k - 1);
        assert LastServed(es, k, q.node, q.id, k - 1);
        assert BoundAt(ws, es, ws[k].lease.bindings[q], k - 1);
      } else {
        BindingStep(ws[k - 1], es[k - 1], q);
        BindingNext(ws, es, k, q);
      }
    }
  }

  lemma BindingNext(ws: seq<World>, es: seq<Event>, k: nat, q: Query)
    requires |ws| == |es| + 1 && 0 < k < |ws| && BindingTells(ws, es, k - 1, q) && !Serves(es[k - 1], q.node, q.id)
    requires BindingKept(ws[k - 1], ws[k], q)
    ensures BindingTells(ws, es, k, q)
  {
    SameLastServed(es, k - 1, q.node, q.id);
    forall j: nat | LastServed(es, k, q.node, q.id, j) && ws[k].clock - es[j].now <= 60 * SECOND
      ensures q in ws[k].lease.bindings
    {
      StillBound(ws, es, k - 1, q, j);
    }
  }

  lemma SameLastServed(es: seq<Event>, k: nat, node: int, request: string)
    requires k < |es| && !Serves(es[k], node, request)
    ensures forall j: nat :: LastServed(es, k + 1, node, request, j) <==> LastServed(es, k, node, request, j)
  {
  }

  lemma StillBound(ws: seq<World>, es: seq<Event>, k: nat, q: Query, j: nat)
    requires |ws| == |es| + 1 && k < |ws| && BindingTells(ws, es, k, q) && LastServed(es, k, q.node, q.id, j)
    requires ws[k].clock - es[j].now <= 60 * SECOND
    ensures q in ws[k].lease.bindings && BoundAt(ws, es, ws[k].lease.bindings[q], j)
  {
    assert q in ws[k].lease.bindings;
    var i: nat :| LastServed(es, k, q.node, q.id, i) && BoundAt(ws, es, ws[k].lease.bindings[q], i);
    LastIsOne(es, k, q.node, q.id, i, j);
  }

  lemma LastIsOne(es: seq<Event>, k: nat, node: int, request: string, i: nat, j: nat)
    requires LastServed(es, k, node, request, i) && LastServed(es, k, node, request, j)
    ensures i == j
  {
  }

  /** An acknowledgement is recognized exactly when it answers the last snapshot of its node and request. */
  lemma RecognizedMeans(ws: seq<World>, es: seq<Event>, k: nat)
    requires Run(ws, es) && k < |es| && es[k].AckCall?
    ensures Recognized(ws[k].lease, es[k].node, es[k].payload, es[k].now) <==> exists j: nat :: Answers(ws, es, k, j)
    ensures forall j: nat :: Answers(ws, es, k, j) ==>
      BoundAt(ws, es, ws[k].lease.bindings[Query(es[k].node, es[k].payload.request)], j)
  {
    var q := Query(es[k].node, es[k].payload.request);
    BindingIsLastServed(ws, es, k, q);
    StepAt(ws, es, k);
    forall j: nat | Answers(ws, es, k, j)
      ensures Recognized(ws[k].lease, es[k].node, es[k].payload, es[k].now)
      ensures BoundAt(ws, es, ws[k].lease.bindings[q], j)
    {
      StillBound(ws, es, k, q, j);
    }
    if Recognized(ws[k].lease, es[k].node, es[k].payload, es[k].now) {
      var i: nat :| LastServed(es, k, q.node, q.id, i) && BoundAt(ws, es, ws[k].lease.bindings[q], i);
      assert Answers(ws, es, k, i);
    }
  }

  // What was said.

  /** The `i`-th report of the call at `k` is of node `n` about session `id`, and it and all before it are on the list
      of the snapshot the call answers. */
  ghost predicate Says(ws: seq<World>, es: seq<Event>, k: nat, i: nat, n: int, id: string)
    requires |ws| == |es| + 1
  {
    && k < |es| && es[k].AckCall? && es[k].node == n && i < |es[k].payload.reports|
    && es[k].payload.reports[i].session == id
    && exists j: nat :: Answers(ws, es, k, j) && AllOnList(es[j].entries, es[k].payload.reports, i + 1)
  }

  /** The call's last report of `n` about the session. */
  ghost predicate LastOfCall(ws: seq<World>, es: seq<Event>, k: nat, i: nat, n: int, id: string)
    requires |ws| == |es| + 1
  {
    Says(ws, es, k, i, n, id) && forall h: nat :: h > i ==> !Says(ws, es, k, h, n, id)
  }

  ghost predicate Silent(ws: seq<World>, es: seq<Event>, k: nat, n: int, id: string)
    requires |ws| == |es| + 1
  {
    forall i: nat :: !Says(ws, es, k, i, n, id)
  }

  /** And no call between it and `k` has one. */
  ghost predicate LastWord(ws: seq<World>, es: seq<Event>, k: nat, n: int, id: string, j: nat, i: nat)
    requires |ws| == |es| + 1
  {
    && j < k <= |es| && LastOfCall(ws, es, j, i, n, id)
    && forall m: nat :: j < m < k ==> Silent(ws, es, m, n, id)
  }

  /** `a` is on record as the report says. */
  predicate IsWord(a: Ack, e: Event, i: nat)
    requires e.AckCall? && i < |e.payload.reports|
  {
    var p := e.payload.reports[i];
    && a.node == e.node && a.runtime == e.runtime && a.at == e.now
    && a.effective == p.effective && a.revision == p.revision && a.deadline == p.deadline && a.reason == p.reason
  }

  // One call.

  /** The report at `i` is about the session, and the listing bears out all reports up to it. */
  ghost predicate Hit(listed: map<string, int>, reports: seq<Report>, i: nat, id: string) {
    i < |reports| && reports[i].session == id && forall h :: 0 <= h <= i ==> Admissible(listed, reports[h])
  }

  ghost predicate LastHit(listed: map<string, int>, reports: seq<Report>, i: nat, id: string) {
    Hit(listed, reports, i, id) && forall h: nat :: h > i ==> !Hit(listed, reports, h, id)
  }

  predicate SameAt(before: map<int, Ack>, after: map<int, Ack>, n: int) {
    && (n in before <==> n in after)
    && (n in before ==> after[n] == before[n])
  }

  predicate IsAck(acks: map<int, Ack>, a: Ack) {
    a.node in acks && acks[a.node] == a
  }

  function AckOf(node: int, runtime: string, p: Report, now: Time): Ack {
    Ack(node, runtime, p.effective, p.revision, now, p.deadline, p.reason)
  }

  /** A report that is not about the session, or is not the last about it, leaves no trace. */
  lemma {:induction false} ReportedAcks(sessions: map<string, Session>, node: int, runtime: string,
                                        listed: map<string, int>, reports: seq<Report>, now: Time, c: string, n: int)
    requires c in sessions
    ensures var r, id := Reported(sessions, node, runtime, listed, reports, now).0, sessions[c].id;
      && c in r
      && (n != node || (forall i: nat :: !Hit(listed, reports, i, id)) ==> SameAt(sessions[c].acks, r[c].acks, n))
      && (forall i: nat :: LastHit(listed, reports, i, id) ==>
            IsAck(r[c].acks, AckOf(node, runtime, reports[i], now)))
    decreases |reports|
  {
    var r, id := Reported(sessions, node, runtime, listed, reports, now).0, sessions[c].id;
    if reports != [] && Admissible(listed, reports[0]) {
      var mid := WithAck(sessions, node, runtime, reports[0], now);
      ReportedAcks(mid, node, runtime, listed, reports[1..], now, c, n);
      ReportedAcks(mid, node, runtime, listed, reports[1..], now, c, node);
      HitRest(listed, reports, id);
      assert Hit(listed, reports, 0, id) <==> reports[0].session == id;
      assert IsAck(mid[c].acks, AckOf(node, runtime, reports[0], now)) || reports[0].session != id;
      forall i: nat | LastHit(listed, reports, i, id)
        ensures IsAck(r[c].acks, AckOf(node, runtime, reports[i], now))
      {
        if i > 0 {
          assert LastHit(listed, reports[1..], i - 1, id);
          assert reports[1..][i - 1] == reports[i];
        } else {
          assert forall h: nat :: !Hit(listed, reports[1..], h, id);
        }
      }
    } else {
      assert forall i: nat :: !Hit(listed, reports, i, id);
    }
  }

  lemma HitRest(listed: map<string, int>, reports: seq<Report>, id: string)
    requires reports != [] && Admissible(listed, reports[0])
    ensures forall i: nat :: Hit(listed, reports[1..], i, id) <==> Hit(listed, reports, i + 1, id)
    ensures forall i: nat :: LastHit(listed, reports, i, id) && i > 0 ==> LastHit(listed, reports[1..], i - 1, id)
  {
    forall i: nat
      ensures Hit(listed, reports[1..], i, id) <==> Hit(listed, reports, i + 1, id)
    {
      if Hit(listed, reports[1..], i, id) {
        forall h | 0 <= h <= i + 1 ensures Admissible(listed, reports[h]) {
          assert h > 0 ==> reports[h] == reports[1..][h - 1];
        }
      }
      if Hit(listed, reports, i + 1, id) {
        forall h | 0 <= h <= i ensures Admissible(listed, reports[1..][h]) {
          assert reports[h + 1] == reports[1..][h];
        }
      }
    }
  }

  lemma SaysIsHit(ws: seq<World>, es: seq<Event>, k: nat, n: int, id: string)
    requires Run(ws, es) && k < |es| && es[k].AckCall? && es[k].node == n
    requires Recognized(ws[k].lease, n, es[k].payload, es[k].now)
    ensures var listed := ws[k].lease.bindings[Query(n, es[k].payload.request)].listed;
      forall i: nat :: Says(ws, es, k, i, n, id) <==> Hit(listed, es[k].payload.reports, i, id)
  {
    RecognizedMeans(ws, es, k);
    var b := ws[k].lease.bindings[Query(n, es[k].payload.request)];
    forall j: nat | Answers(ws, es, k, j)
      ensures forall p :: p in es[k].payload.reports ==> (OnList(es[j].entries, p) <==> Admissible(b.listed, p))
    {
      ListedFrom(ws, es, j);
      forall p | p in es[k].payload.reports
        ensures OnList(es[j].entries, p) <==> Admissible(b.listed, p)
      {
        OnListMeans(b.listed, es[j].entries, p);
      }
    }
    var j: nat :| Answers(ws, es, k, j);
  }

  /** An acknowledgement puts the call's last report of the node about the session on record, or leaves what was. */
  lemma AckStep(ws: seq<World>, es: seq<Event>, k: nat, c: string, n: int)
    requires Run(ws, es) && k < |es| && es[k].AckCall? && c in ws[k].lease.sessions
    ensures c in ws[k + 1].lease.sessions
    ensures var s, t := ws[k].lease.sessions[c], ws[k + 1].lease.sessions[c];
      && (Silent(ws, es, k, n, s.id) ==> SameAt(s.acks, t.acks, n))
      && (forall i: nat :: LastOfCall(ws, es, k, i, n, s.id) ==> n in t.acks && IsWord(t.acks[n], es[k], i))
  {
    StepAt(ws, es, k);
    var e, s := es[k], ws[k].lease.sessions[c];
    if Recognized(ws[k].lease, e.node, e.payload, e.now) {
      var listed := ws[k].lease.bindings[Query(e.node, e.payload.request)].listed;
      ReportedAcks(ws[k].lease.sessions, e.node, e.runtime, listed, e.payload.reports, e.now, c, n);
      SaysIsHit(ws, es, k, e.node, s.id);
    } else {
      RecognizedMeans(ws, es, k);
    }
  }

  /** A session that stays keeps its acknowledgements through every other call. */
  lemma OtherStep(w: World, e: Event, c: string)
    requires Enabled(w, e) && !e.AckCall? && c in Apply(w, e).lease.sessions
    requires Apply(w, e).lease.sessions[c].id in w.ids
    ensures c in w.lease.sessions && w.lease.sessions[c].id == Apply(w, e).lease.sessions[c].id
    ensures w.lease.sessions[c].acks == Apply(w, e).lease.sessions[c].acks
  {
    match e
    case StartCall(i, now, id) => StartKeepsAcks(w.lease, i, now, id, c);
    case StopCall(customer, id, _) => StopKeepsAcks(w.lease, customer, id, c);
    case SnapshotCall(_, _, _, now, _, _) => CleaningMeans(w.lease.sessions, now, c);
  }

  lemma StartKeepsAcks(l: Lease, i: StartInput, now: Time, id: string, c: string)
    requires var r := Started(l, i, now, id).0.sessions; c in r && r[c].id != id
    ensures var r := Started(l, i, now, id).0.sessions;
      c in l.sessions && r[c].id == l.sessions[c].id && r[c].acks == l.sessions[c].acks
  {
    StartCases(l, i, now, id);
  }

  lemma StopKeepsAcks(l: Lease, customer: string, id: string, c: string)
    requires c in Halted(l, customer, id).0.sessions
    ensures var r := Halted(l, customer, id).0.sessions;
      c in l.sessions && r[c].id == l.sessions[c].id && r[c].acks == l.sessions[c].acks
  {
  }

  lemma Newcomer(ws: seq<World>, es: seq<Event>, k: nat, c: string)
    requires Run(ws, es) && k < |es| && c in ws[k + 1].lease.sessions
    requires ws[k + 1].lease.sessions[c].id !in ws[k].ids
    ensures ws[k + 1].lease.sessions[c].acks == map[]
  {
    StepAt(ws, es, k);
    if c in ws[k].lease.sessions {
      IssuedRun(ws, es, k, c);
    }
    match es[k]
    case StartCall(i, now, id) => StartCases(ws[k].lease, i, now, id);
    case StopCall(_, _, _) =>
    case SnapshotCall(_, _, _, _, _, _) =>
    case AckCall(node, runtime, p, now) => AckOnlyAcks(ws[k].lease, node, runtime, p, now);
  }

  /** What a snapshot lists has been given out. */
  ghost predicate ListedAreIssued(ws: seq<World>, es: seq<Event>)
    requires |ws| == |es| + 1
  {
    forall j: nat, k: nat, p :: j < k < |ws| && es[j].SnapshotCall? && OnList(es[j].entries, p) ==>
      p.session in ws[k].ids
  }

  lemma AllListedAreIssued(ws: seq<World>, es: seq<Event>)
    requires Run(ws, es)
    ensures ListedAreIssued(ws, es)
  {
    forall j: nat, k: nat, p | j < k < |ws| && es[j].SnapshotCall? && OnList(es[j].entries, p)
      ensures p.session in ws[k].ids
    {
      ListedIssued(ws, es, j, p);
      IdsStay(ws, es, j + 1, k, p.session);
    }
  }

  lemma Unsaid(ws: seq<World>, es: seq<Event>, k: nat, m: nat, i: nat, n: int, id: string)
    requires |ws| == |es| + 1 && ListedAreIssued(ws, es) && k <= m < |ws| && id !in ws[m].ids
    ensures !Says(ws, es, k, i, n, id)
  {
  }

  lemma IdsStay(ws: seq<World>, es: seq<Event>, j: nat, k: nat, id: string)
    requires Run(ws, es) && j <= k < |ws| && id in ws[j].ids
    ensures id in ws[k].ids
  {
    KeptRun(ws, es, j, k);
  }

  lemma ListedIssued(ws: seq<World>, es: seq<Event>, j: nat, p: Report)
    requires Run(ws, es) && j < |es| && es[j].SnapshotCall? && OnList(es[j].entries, p)
    ensures p.session in ws[j + 1].ids
  {
    ListedFrom(ws, es, j);
    RunInv(ws, es, j + 1);
    ListedIsIssued(es[j].entries, ws[j + 1], es[j].node, es[j].now, p);
  }

  lemma ListedIsIssued(entries: seq<Entry>, w: World, node: int, now: Time, p: Report)
    requires OnList(entries, p) && IsListing(entries, w.lease.sessions, node, now)
    requires Inv(w)
    ensures p.session in w.ids
  {
    var x :| x in entries && x.session == p.session;
    var c :| c in w.lease.sessions && x == EntryOf(w.lease.sessions[c]);
    assert SessionOk(w.lease.sessions[c], c, w.ids, w.clock, w.served);
  }

  lemma LastExists(ws: seq<World>, es: seq<Event>, k: nat, i: nat, n: int, id: string)
    requires |ws| == |es| + 1 && Says(ws, es, k, i, n, id)
    ensures exists h: nat :: LastOfCall(ws, es, k, h, n, id)
    decreases if k < |es| && es[k].AckCall? then |es[k].payload.reports| - i else 0
  {
    if !LastOfCall(ws, es, k, i, n, id) {
      var h: nat :| h > i && Says(ws, es, k, h, n, id);
      LastExists(ws, es, k, h, n, id);
    }
  }

  // Whole runs.

  ghost predicate Recorded(ws: seq<World>, es: seq<Event>, k: nat, acks: map<int, Ack>, n: int, id: string)
    requires |ws| == |es| + 1
  {
    && (n in acks <==> exists j: nat, i: nat :: LastWord(ws, es, k, n, id, j, i))
    && (forall j: nat, i: nat :: LastWord(ws, es, k, n, id, j, i) ==> n in acks && IsWord(acks[n], es[j], i))
  }

  /** What is on record of a node is exactly its last report about the session that the snapshot it answered bears out:
      none on record, if there is no such report. */
  lemma {:induction false} RecordedIsLastWord(ws: seq<World>, es: seq<Event>, k: nat, c: string, n: int)
    requires Run(ws, es) && k < |ws| && c in ws[k].lease.sessions
    ensures var s := ws[k].lease.sessions[c];
      n in s.acks <==> exists j: nat, i: nat :: LastWord(ws, es, k, n, s.id, j, i)
    ensures var s := ws[k].lease.sessions[c];
      forall j: nat, i: nat :: LastWord(ws, es, k, n, s.id, j, i) ==> n in s.acks && IsWord(s.acks[n], es[j], i)
  {
    if k > 0 {
      var id := ws[k].lease.sessions[c].id;
      if id in ws[k - 1].ids {
        KeptNext(ws, es, k - 1);
        RecordedIsLastWord(ws, es, k - 1, c, n);
        RecordedNext(ws, es, k - 1, c, n);
      } else {
        Newcomer(ws, es, k - 1, c);
        Unspoken(ws, es, k, n, id);
      }
    }
  }

  lemma Unspoken(ws: seq<World>, es: seq<Event>, k: nat, n: int, id: string)
    requires Run(ws, es) && 0 < k < |ws| && id !in ws[k - 1].ids
    ensures forall j: nat, i: nat :: !LastWord(ws, es, k, n, id, j, i)
  {
    AllListedAreIssued(ws, es);
    forall j: nat, i: nat | j < k
      ensures !Says(ws, es, j, i, n, id)
    {
      Unsaid(ws, es, j, k - 1, i, n, id);
    }
  }

  lemma RecordedNext(ws: seq<World>, es: seq<Event>, k: nat, c: string, n: int)
    requires Run(ws, es) && k < |es| && c in ws[k].lease.sessions && c in ws[k + 1].lease.sessions
    requires ws[k].lease.sessions[c].id == ws[k + 1].lease.sessions[c].id
    requires Recorded(ws, es, k, ws[k].lease.sessions[c].acks, n, ws[k].lease.sessions[c].id)
    ensures Recorded(ws, es, k + 1, ws[k + 1].lease.sessions[c].acks, n, ws[k + 1].lease.sessions[c].id)
  {
    var s, t := ws[k].lease.sessions[c], ws[k + 1].lease.sessions[c];
    if es[k].AckCall? {
      AckStep(ws, es, k, c, n);
      RecordedAfter(ws, es, k, s.acks, t.acks, n, s.id);
    } else {
      IssuedRun(ws, es, k, c);
      StepAt(ws, es, k);
      OtherStep(ws[k], es[k], c);
      WordStays(ws, es, k, s.acks, t.acks, n, s.id);
    }
  }

  lemma RecordedAfter(ws: seq<World>, es: seq<Event>, k: nat, before: map<int, Ack>, after: map<int, Ack>, n: int,
                      id: string)
    requires |ws| == |es| + 1 && k < |es| && es[k].AckCall? && Recorded(ws, es, k, before, n, id)
    requires Silent(ws, es, k, n, id) ==> SameAt(before, after, n)
    requires forall i: nat :: LastOfCall(ws, es, k, i, n, id) ==> n in after && IsWord(after[n], es[k], i)
    ensures Recorded(ws, es, k + 1, after, n, id)
  {
    if Silent(ws, es, k, n, id) {
      WordStays(ws, es, k, before, after, n, id);
    } else {
      NewWord(ws, es, k, after, n, id);
    }
  }

  /** After a call with a report that counts the last word is from that call. */
  lemma NewWord(ws: seq<World>, es: seq<Event>, k: nat, acks: map<int, Ack>, n: int, id: string)
    requires |ws| == |es| + 1 && k < |es| && es[k].AckCall? && !Silent(ws, es, k, n, id)
    requires forall i: nat :: LastOfCall(ws, es, k, i, n, id) ==> n in acks && IsWord(acks[n], es[k], i)
    ensures Recorded(ws, es, k + 1, acks, n, id)
  {
    var i: nat :| Says(ws, es, k, i, n, id);
    LastExists(ws, es, k, i, n, id);
    var h: nat :| LastOfCall(ws, es, k, h, n, id);
    var m := k + 1;
    assert LastWord(ws, es, m, n, id, k, h);
    forall j: nat, i: nat | LastWord(ws, es, m, n, id, j, i)
      ensures j == k && LastOfCall(ws, es, k, i, n, id)
    {
    }
  }

  lemma WordStays(ws: seq<World>, es: seq<Event>, k: nat, before: map<int, Ack>, after: map<int, Ack>, n: int,
                  id: string)
    requires |ws| == |es| + 1 && k < |es| && Recorded(ws, es, k, before, n, id)
    requires Silent(ws, es, k, n, id) && SameAt(before, after, n)
    ensures Recorded(ws, es, k + 1, after, n, id)
  {
    SameWords(ws, es, k, k + 1, n, id);
  }

  lemma SameWords(ws: seq<World>, es: seq<Event>, k: nat, m: nat, n: int, id: string)
    requires |ws| == |es| + 1 && k < |es| && m == k + 1 && Silent(ws, es, k, n, id)
    ensures forall j: nat, i: nat :: LastWord(ws, es, m, n, id, j, i) <==> LastWord(ws, es, k, n, id, j, i)
  {
  }

  /** A node's last word on the session is that it runs it. */
  ghost predicate SaysRunning(ws: seq<World>, es: seq<Event>, k: nat, n: int, id: string)
    requires |ws| == |es| + 1
  {
    exists j: nat, i: nat :: LastWord(ws, es, k, n, id, j, i) && es[j].payload.reports[i].effective
  }

  /** The last reports of the targets determine the state of a running session: active when all of them run it,
      pending when none does. */
  lemma StateFromReports(ws: seq<World>, es: seq<Event>, k: nat, c: string)
    requires Run(ws, es) && k < |ws| && c in ws[k].lease.sessions
    requires ws[k].lease.sessions[c].enabled && ws[k].lease.sessions[c].targets != []
    ensures var s := ws[k].lease.sessions[c];
      && (s.state == Active <==> forall n :: n in s.targets ==> SaysRunning(ws, es, k, n, s.id))
      && (s.state == Pending <==> forall n :: n in s.targets ==> !SaysRunning(ws, es, k, n, s.id))
      && (s.state == Active || s.state == Pending || s.state == Partial)
  {
    var s := ws[k].lease.sessions[c];
    forall n | n in s.targets
      ensures Effective(s, n) <==> SaysRunning(ws, es, k, n, s.id)
    {
      EffectiveMeans(ws, es, k, c, n);
    }
    DerivedState(ws, es, k, c);
  }

  lemma EffectiveMeans(ws: seq<World>, es: seq<Event>, k: nat, c: string, n: int)
    requires Run(ws, es) && k < |ws| && c in ws[k].lease.sessions && ws[k].lease.sessions[c].enabled
    ensures Effective(ws[k].lease.sessions[c], n) <==> SaysRunning(ws, es, k, n, ws[k].lease.sessions[c].id)
  {
    var s := ws[k].lease.sessions[c];
    RecordedIsLastWord(ws, es, k, c, n);
    RunInv(ws, es, k);
    assert Shaped(s, c, ws[k].ids, ws[k].clock);
  }

  /** When an acknowledgement is accepted: it answers its snapshot, and every report in it is on the list. */
  lemma AckVerdict(ws: seq<World>, es: seq<Event>, k: nat)
    requires Run(ws, es) && k < |es| && es[k].AckCall?
    ensures var r := Acknowledged(ws[k].lease, es[k].node, es[k].runtime, es[k].payload, es[k].now).1;
      var reports := es[k].payload.reports;
      && (r.Ok? <==> exists j: nat :: Answers(ws, es, k, j) && AllOnList(es[j].entries, reports, |reports|))
      && (r.Err? ==> r.error == SnapshotConflict)
    ensures (forall j: nat :: !Answers(ws, es, k, j)) ==> ws[k + 1] == ws[k].(clock := es[k].now)
  {
    var e := es[k];
    StepAt(ws, es, k);
    RecognizedMeans(ws, es, k);
    if Recognized(ws[k].lease, e.node, e.payload, e.now) {
      var listed := ws[k].lease.bindings[Query(e.node, e.payload.request)].listed;
      ReportedVerdict(ws[k].lease.sessions, e.node, e.runtime, listed, e.payload.reports, e.now);
      forall j: nat | Answers(ws, es, k, j)
        ensures forall p :: OnList(es[j].entries, p) <==> Admissible(listed, p)
      {
        ListedFrom(ws, es, j);
      }
    }
  }

  lemma {:induction false} ReportedVerdict(sessions: map<string, Session>, node: int, runtime: string,
                                           listed: map<string, int>, reports: seq<Report>, now: Time)
    ensures Reported(sessions, node, runtime, listed, reports, now).1
       <==> forall h :: 0 <= h < |reports| ==> Admissible(listed, reports[h])
    decreases |reports|
  {
    if reports != [] && Admissible(listed, reports[0]) {
      ReportedVerdict(WithAck(sessions, node, runtime, reports[0], now), node, runtime, listed, reports[1..], now);
      assert forall h :: 0 < h < |reports| ==> reports[h] == reports[1..][h - 1];
      assert forall h :: 0 <= h < |reports[1..]| ==> reports[1..][h] == reports[h + 1];
    }
  }
}
