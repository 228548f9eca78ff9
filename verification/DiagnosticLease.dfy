/** Diagnostic sessions: leases of at most fifteen minutes, handed to nodes in snapshots and acknowledged by them. */
module DiagnosticLease {
  import opened Collections
  import opened Ordering

  /** Nanoseconds. */
  type Time = int

  const SECOND: int := 1_000_000_000
  const MAX_SESSIONS: int := 10
  const SESSION_LIFE: int := 900 * SECOND
  const BINDING_LIFE: int := 60 * SECOND
  const RECORD_LIFE: int := 24 * 3600 * SECOND
  const TOMBSTONE_LIFE: int := 24 * 3600 * SECOND

  datatype State = Pending | Partial | Active | Stopping | Stopped | Expired

  datatype Ack = Ack(node: int, runtime: string, effective: bool, revision: int, at: Time, deadline: int,
                     reason: string)

  datatype Session = Session(id: string, customer: string, operator: int, created: Time, issued: Time, expires: Time,
                             revision: int, enabled: bool, state: State, targets: seq<int>, acks: map<int, Ack>)

  /** The operator and the key it chose: the printed form joins them with a colon, which no number contains. */
  datatype Slot = Slot(operator: int, key: string)

  datatype Record = Record(customer: string, session: string, expires: Time, created: Time)

  /** A node and its request: printed with a colon between them. */
  datatype Query = Query(node: int, id: string)

  datatype Binding = Binding(node: int, runtime: string, request: string, epoch: string, version: int,
                             listed: map<string, int>, at: Time)

  datatype Lease = Lease(epoch: string, version: int, sessions: map<string, Session>, records: map<Slot, Record>,
                         bindings: map<Query, Binding>)

  datatype Error = IdempotencyConflict | LimitReached | NotFound | SnapshotConflict

  // Cleaning up.

  predicate Live(s: Session, now: Time) {
    s.enabled && now < s.expires
  }

  function Aged(s: Session, now: Time): Session {
    if s.enabled && now > s.expires then s.(enabled := false, state := Expired) else s
  }

  predicate Buried(s: Session, now: Time) {
    !s.enabled && now - s.expires > TOMBSTONE_LIFE
  }

  function CleanedSessions(sessions: map<string, Session>, now: Time): map<string, Session> {
    map c | c in sessions && !Buried(Aged(sessions[c], now), now) :: Aged(sessions[c], now)
  }

  function CleanedBindings(bindings: map<Query, Binding>, now: Time): map<Query, Binding> {
    map q | q in bindings && now - bindings[q].at <= BINDING_LIFE :: bindings[q]
  }

  function CleanedRecords(records: map<Slot, Record>, now: Time): map<Slot, Record> {
    map k | k in records && now - records[k].created <= RECORD_LIFE :: records[k]
  }

  function Cleaned(l: Lease, now: Time): Lease {
    l.(sessions := CleanedSessions(l.sessions, now), bindings := CleanedBindings(l.bindings, now),
       records := CleanedRecords(l.records, now))
  }

  // Starting and stopping.

  datatype StartInput = StartInput(customer: string, operator: int, key: string, targets: seq<int>)

  datatype StartResult = Start(session: Session, isNew: bool)

  function LiveCustomers(sessions: map<string, Session>, now: Time): set<string> {
    set c | c in sessions && Live(sessions[c], now)
  }

  predicate Ascending(s: seq<int>) {
    forall i, j :: 0 <= i < j < |s| ==> s[i] <= s[j]
  }

  /** The targets in ascending order, repetitions kept. */
  function Ordered(s: seq<int>): (r: seq<int>)
    ensures Ascending(r) && multiset(r) == multiset(s)
  {
    if s == [] then []
    else
      assert s == s[..|s| - 1] + [s[|s| - 1]];
      Inserted(Ordered(s[..|s| - 1]), s[|s| - 1])
  }

  function Inserted(s: seq<int>, x: int): (r: seq<int>)
    requires Ascending(s)
    ensures Ascending(r) && multiset(r) == multiset(s) + multiset{x}
  {
    if s == [] || s[|s| - 1] <= x then s + [x]
    else
      var n := |s| - 1;
      assert s == s[..n] + [s[n]];
      var head := Inserted(s[..n], x);
      BoundedBy(s[..n], x, s[n], head);
      head + [s[n]]
  }

  lemma BoundedBy(s: seq<int>, x: int, top: int, r: seq<int>)
    requires multiset(r) == multiset(s) + multiset{x} && x <= top && forall i :: 0 <= i < |s| ==> s[i] <= top
    ensures forall i :: 0 <= i < |r| ==> r[i] <= top
  {
    forall i | 0 <= i < |r|
      ensures r[i] <= top
    {
      assert r[i] in multiset(r);
      assert r[i] in multiset(s) || r[i] == x;
      assert r[i] in multiset(s) ==> r[i] in s;
    }
  }

  function NewSession(i: StartInput, now: Time, id: string): Session {
    Session(id, i.customer, i.operator, now, now, now + SESSION_LIFE, 1, true, Pending, Ordered(i.targets), map[])
  }

  /** An empty key is not remembered. */
  function Noted(records: map<Slot, Record>, slot: Slot, customer: string, s: Session, now: Time): map<Slot, Record> {
    if slot.key == "" then records else records[slot := Record(customer, s.id, s.expires, now)]
  }

  function Started(l: Lease, i: StartInput, now: Time, id: string): (Lease, Result<StartResult, Error>) {
    FoundOrPlaced(Cleaned(l, now), i, now, id)
  }

  /** A start on a table that has been cleaned up. */
  function FoundOrPlaced(c: Lease, i: StartInput, now: Time, id: string): (Lease, Result<StartResult, Error>) {
    var slot := Slot(i.operator, i.key);
    if slot in c.records && c.records[slot].customer != i.customer then (c, Err(IdempotencyConflict))
    else if slot in c.records && i.customer in c.sessions && c.sessions[i.customer].id == c.records[slot].session
    then (c, Ok(Start(c.sessions[i.customer], false)))
    else if i.customer in c.sessions && Live(c.sessions[i.customer], now)
    then
      var s := c.sessions[i.customer];
      (c.(records := Noted(c.records, slot, i.customer, s, now)), Ok(Start(s, false)))
    else if |LiveCustomers(c.sessions, now)| >= MAX_SESSIONS then (c, Err(LimitReached))
    else
      var s := NewSession(i, now, id);
      (c.(version := c.version + 1, sessions := c.sessions[i.customer := s],
        records := Noted(c.records, slot, i.customer, s, now)),
       Ok(Start(s, true)))
  }

  /** `node` has said it runs the session at its current revision. */
  predicate Effective(s: Session, node: int) {
    node in s.acks && s.acks[node].effective && s.acks[node].revision == s.revision
  }

  /** `node` has said, at the current revision or a later one, that it does not run the session. */
  predicate Quiet(s: Session, node: int) {
    node in s.acks && !s.acks[node].effective && s.acks[node].revision >= s.revision
  }

  predicate AllQuiet(s: Session) {
    forall i :: 0 <= i < |s.targets| ==> Quiet(s, s.targets[i])
  }

  function StoppedSession(s: Session): Session {
    var t := s.(revision := s.revision + 1, enabled := false, state := Stopping);
    if AllQuiet(t) then t.(state := Stopped) else t
  }

  function Halted(l: Lease, customer: string, id: string): (Lease, Result<Session, Error>) {
    if customer !in l.sessions || l.sessions[customer].id != id then (l, Err(NotFound))
    else if !l.sessions[customer].enabled then (l, Ok(l.sessions[customer]))
    else
      var s := StoppedSession(l.sessions[customer]);
      (l.(version := l.version + 1, sessions := l.sessions[customer := s]), Ok(s))
  }

  // Snapshots.

  datatype Entry = Entry(session: string, customer: string, revision: int, issued: int, expires: int, maxSeconds: int)

  datatype Snapshot = Snapshot(scope: string, epoch: string, version: int, request: string, runtime: string,
                               serverTime: int, entries: seq<Entry>)

  predicate Lists(s: Session, node: int, now: Time) {
    s.enabled && now <= s.expires && node in s.targets
  }

  function EntryOf(s: Session): Entry {
    Entry(s.id, s.customer, s.revision, s.issued / SECOND, s.expires / SECOND, SESSION_LIFE / SECOND)
  }

  ghost predicate SortedEntries(entries: seq<Entry>) {
    forall i, j :: 0 <= i < j < |entries| ==> Below(entries[i].session, entries[j].session)
  }

  /** Exactly the sessions that run for `node`, by session identifier. */
  ghost predicate IsListing(entries: seq<Entry>, sessions: map<string, Session>, node: int, now: Time) {
    && SortedEntries(entries)
    && (forall c :: c in sessions && Lists(sessions[c], node, now) ==> EntryOf(sessions[c]) in entries)
    && (forall e :: e in entries ==>
      exists c :: c in sessions && Lists(sessions[c], node, now) && e == EntryOf(sessions[c]))
  }

  /** The binding remembers the listed sessions with their revisions. */
  ghost predicate BoundTo(listed: map<string, int>, entries: seq<Entry>) {
    && (forall e :: e in entries ==> e.session in listed && listed[e.session] == e.revision)
    && (forall id :: id in listed ==> exists e :: e in entries && e.session == id)
  }

  // Acknowledgements.

  datatype Report = Report(session: string, revision: int, effective: bool, deadline: int, reason: string)

  datatype Payload = Payload(request: string, epoch: string, version: int, reports: seq<Report>)

  /** How many of the first `n` targets run the session. */
  function EffectiveCount(s: Session, n: nat): nat
    requires n <= |s.targets|
  {
    if n == 0 then 0 else EffectiveCount(s, n - 1) + if Effective(s, s.targets[n - 1]) then 1 else 0
  }

  function Recomputed(s: Session): Session {
    if !s.enabled then s.(state := if AllQuiet(s) then Stopped else Stopping)
    else
      var n := EffectiveCount(s, |s.targets|);
      s.(state := if |s.targets| == 0 || n == |s.targets| then Active else if n > 0 then Partial else Pending)
  }

  function Acked(s: Session, node: int, runtime: string, p: Report, now: Time): Session {
    Recomputed(s.(acks := s.acks[node := Ack(node, runtime, p.effective, p.revision, now, p.deadline, p.reason)]))
  }

  function WithAck(sessions: map<string, Session>, node: int, runtime: string, p: Report, now: Time): map<string,
                   Session> {
    map c | c in sessions ::
      if sessions[c].id == p.session then Acked(sessions[c], node, runtime, p, now) else sessions[c]
  }

  predicate Admissible(listed: map<string, int>, p: Report) {
    p.session in listed && listed[p.session] == p.revision
  }

  /** The reports are applied one by one, up to the first that the snapshot does not bear out. */
  function Reported(sessions: map<string, Session>, node: int, runtime: string, listed: map<string, int>,
                    reports: seq<Report>, now: Time): (map<string, Session>, bool)
    decreases |reports|
  {
    if reports == [] then (sessions, true)
    else if !Admissible(listed, reports[0]) then (sessions, false)
    else Reported(WithAck(sessions, node, runtime, reports[0], now), node, runtime, listed, reports[1..], now)
  }

  predicate Recognized(l: Lease, node: int, p: Payload, now: Time) {
    var q := Query(node, p.request);
    && q in l.bindings && now - l.bindings[q].at <= BINDING_LIFE
    && l.bindings[q].epoch == p.epoch && l.bindings[q].version == p.version
  }

  function Acknowledged(l: Lease, node: int, runtime: string, p: Payload, now: Time): (Lease, Result<(), Error>) {
    if !Recognized(l, node, p, now) then (l, Err(SnapshotConflict))
    else
      var r := Reported(l.sessions, node, runtime, l.bindings[Query(node, p.request)].listed, p.reports, now);
      (l.(sessions := r.0), if r.1 then Ok(()) else Err(SnapshotConflict))
  }

  // Whole runs.

  /** One snapshot as it went out. */
  datatype Served = Served(node: int, request: string, at: Time, version: int, entries: seq<Entry>,
                           listed: map<string, int>)

  /** The service, the last time it was called, the identifiers it has given out and the snapshots it has served. */
  datatype World = World(lease: Lease, clock: Time, ids: set<string>, served: seq<Served>)

  datatype Event =
    | StartCall(input: StartInput, now: Time, id: string)
    | StopCall(customer: string, session: string, now: Time)
    | SnapshotCall(node: int, runtime: string, request: string, now: Time, entries: seq<Entry>,
                   listed: map<string, int>)
    | AckCall(node: int, runtime: string, payload: Payload, now: Time)

  /** Time does not go back, and a new identifier has not been used. */
  ghost predicate Enabled(w: World, e: Event) {
    && e.now >= w.clock
    && (e.StartCall? ==> e.id !in w.ids)
    && (e.SnapshotCall? ==> IsListing(e.entries, CleanedSessions(w.lease.sessions, e.now), e.node, e.now))
    && (e.SnapshotCall? ==> BoundTo(e.listed, e.entries))
  }

  function Apply(w: World, e: Event): World {
    match e
    case StartCall(i, now, id) =>
      var r := Started(w.lease, i, now, id);
      World(r.0, now, if r.1.Ok? && r.1.value.isNew then w.ids + {id} else w.ids, w.served)
    case StopCall(customer, session, now) => w.(lease := Halted(w.lease, customer, session).0, clock := now)
    case SnapshotCall(node, runtime, request, now, entries, listed) =>
      var c := Cleaned(w.lease, now);
      var b := Binding(node, runtime, request, c.epoch, c.version, listed, now);
      World(c.(bindings := c.bindings[Query(node, request) := b]), now, w.ids,
            w.served + [Served(node, request, now, c.version, entries, listed)])
    case AckCall(node, runtime, p, now) => w.(lease := Acknowledged(w.lease, node, runtime, p, now).0, clock := now)
  }

  ghost predicate Initial(w: World) {
    && w.lease == Lease(w.lease.epoch, 1, map[], map[], map[])
    && w.ids == {} && w.served == []
  }

  ghost predicate Run(ws: seq<World>, es: seq<Event>) {
    && |ws| == |es| + 1 && Initial(ws[0])
    && forall k {:trigger es[k]} :: 0 <= k < |es| ==> Enabled(ws[k], es[k]) && ws[k + 1] == Apply(ws[k], es[k])
  }

  // What holds of one session.

  ghost predicate Shaped(s: Session, c: string, ids: set<string>, clock: Time) {
    && s.customer == c && s.id in ids
    && s.created == s.issued <= clock && s.expires == s.issued + SESSION_LIFE
    && s.revision == (if s.enabled || s.revision != 2 then 1 else 2)
    && (s.targets == [] ==> s.acks == map[])
    && forall n :: n in s.acks ==>
      s.acks[n].node == n && n in s.targets && s.acks[n].revision == 1 && s.acks[n].at <= clock
  }

  /** The state of a session that runs is what its targets have said; a session stopped by request waits for
      acknowledgements unless it has no targets; one that ran out is expired until a late acknowledgement is counted. */
  ghost predicate StateAgrees(s: Session) {
    if s.enabled then
      if s.targets == [] then s.state == Pending
      else && (s.state == Active <==> forall n :: n in s.targets ==> Effective(s, n))
           && (s.state == Pending <==> forall n :: n in s.targets ==> !Effective(s, n))
           && (s.state == Active || s.state == Pending || s.state == Partial)
    else if s.revision == 2 then s.state == if s.targets == [] then Stopped else Stopping
    else s.state == Expired || s.state == if forall n :: n in s.targets ==> Quiet(s, n) then Stopped else Stopping
  }

  /** A snapshot that went to `node` listed the session at the acknowledged revision at most a minute before. */
  ghost predicate Borne(id: string, node: int, a: Ack, served: seq<Served>) {
    exists k :: 0 <= k < |served| && Bears(served[k], id, node, a)
  }

  predicate Bears(v: Served, id: string, node: int, a: Ack) {
    && v.node == node && id in v.listed && v.listed[id] == a.revision
    && v.at <= a.at <= v.at + BINDING_LIFE
  }

  ghost predicate AcksBorne(s: Session, served: seq<Served>) {
    forall n :: n in s.acks ==> Borne(s.id, n, s.acks[n], served)
  }

  ghost predicate SessionOk(s: Session, c: string, ids: set<string>, clock: Time, served: seq<Served>) {
    Shaped(s, c, ids, clock) && StateAgrees(s) && AcksBorne(s, served)
  }

  // What holds of the tables.

  ghost predicate Distinct(sessions: map<string, Session>) {
    forall c, d :: c in sessions && d in sessions && sessions[c].id == sessions[d].id ==> c == d
  }

  ghost predicate SessionsOk(sessions: map<string, Session>, ids: set<string>, clock: Time, served: seq<Served>) {
    Distinct(sessions) && forall c :: c in sessions ==> SessionOk(sessions[c], c, ids, clock, served)
  }

  /** What snapshots listed were issued identifiers at their first revision, for targets of theirs. */
  ghost predicate ServedOne(v: Served, sessions: map<string, Session>, ids: set<string>, clock: Time) {
    && v.at <= clock && BoundTo(v.listed, v.entries)
    && (forall id :: id in v.listed ==> id in ids && v.listed[id] == 1)
    && (forall c :: c in sessions && sessions[c].id in v.listed ==> v.node in sessions[c].targets)
  }

  ghost predicate ServedOk(served: seq<Served>, sessions: map<string, Session>, ids: set<string>, clock: Time) {
    forall k :: 0 <= k < |served| ==> ServedOne(served[k], sessions, ids, clock)
  }

  predicate Tells(v: Served, q: Query, b: Binding) {
    && v.node == q.node == b.node && v.request == q.id == b.request && v.at == b.at
    && v.version == b.version && v.listed == b.listed
  }

  ghost predicate BindingsOk(bindings: map<Query, Binding>, served: seq<Served>) {
    forall q :: q in bindings ==> exists k :: 0 <= k < |served| && Tells(served[k], q, bindings[q])
  }

  /** A remembered start is of a customer that still has a session, one that ends after it. */
  ghost predicate RecordsOk(records: map<Slot, Record>, sessions: map<string, Session>, clock: Time) {
    forall k :: k in records ==>
      && k.key != "" && records[k].created <= clock
      && records[k].customer in sessions && sessions[records[k].customer].expires > records[k].created
  }

  ghost predicate Capped(sessions: map<string, Session>, clock: Time) {
    |LiveCustomers(sessions, clock)| <= MAX_SESSIONS
  }

  ghost predicate Inv(w: World) {
    && SessionsOk(w.lease.sessions, w.ids, w.clock, w.served)
    && ServedOk(w.served, w.lease.sessions, w.ids, w.clock)
    && BindingsOk(w.lease.bindings, w.served)
    && RecordsOk(w.lease.records, w.lease.sessions, w.clock)
    && Capped(w.lease.sessions, w.clock)
  }

  // Every step keeps it. First cleaning up.

  lemma CleanedSessionsOk(sessions: map<string, Session>, ids: set<string>, clock: Time, served: seq<Served>, now: Time)
    requires SessionsOk(sessions, ids, clock, served) && now >= clock
    ensures SessionsOk(CleanedSessions(sessions, now), ids, now, served)
  {
    forall c | c in CleanedSessions(sessions, now)
      ensures SessionOk(CleanedSessions(sessions, now)[c], c, ids, now, served)
    {
    }
  }

  /** A start is forgotten before the session it is about. */
  lemma CleanedRecordsOk(l: Lease, clock: Time, now: Time)
    requires RecordsOk(l.records, l.sessions, clock) && now >= clock
    ensures RecordsOk(CleanedRecords(l.records, now), CleanedSessions(l.sessions, now), now)
  {
  }

  lemma FewerLive(sessions: map<string, Session>, after: map<string, Session>, clock: Time, now: Time)
    requires now >= clock && Capped(sessions, clock)
    requires forall c :: c in after && Live(after[c], now) ==>
      c in sessions && sessions[c].enabled && sessions[c].expires == after[c].expires
    ensures Capped(after, now)
  {
    assert forall c :: c in LiveCustomers(after, now) ==> c in LiveCustomers(sessions, clock);
    SubsetSize(LiveCustomers(after, now), LiveCustomers(sessions, clock));
  }

  lemma CleanedOk(w: World, now: Time)
    requires Inv(w) && now >= w.clock
    ensures Inv(w.(lease := Cleaned(w.lease, now), clock := now))
  {
    var after := CleanedSessions(w.lease.sessions, now);
    CleanedSessionsOk(w.lease.sessions, w.ids, w.clock, w.served, now);
    CleanedRecordsOk(w.lease, w.clock, now);
    FewerLive(w.lease.sessions, after, w.clock, now);
  }

  // Starting.

  lemma NewSessionOk(i: StartInput, now: Time, id: string, ids: set<string>, served: seq<Served>)
    ensures SessionOk(NewSession(i, now, id), i.customer, ids + {id}, now, served)
  {
    var s := NewSession(i, now, id);
    assert s.targets != [] ==> s.targets[0] in s.targets;
  }

  lemma PlacedSessionsOk(sessions: map<string, Session>, ids: set<string>, now: Time, served: seq<Served>,
                         i: StartInput, id: string)
    requires SessionsOk(sessions, ids, now, served) && ServedOk(served, sessions, ids, now) && id !in ids
    ensures var after := sessions[i.customer := NewSession(i, now, id)];
      SessionsOk(after, ids + {id}, now, served) && ServedOk(served, after, ids + {id}, now)
  {
    var s := NewSession(i, now, id);
    var after := sessions[i.customer := s];
    NewSessionOk(i, now, id, ids, served);
    forall c | c in after && c != i.customer
      ensures SessionOk(after[c], c, ids + {id}, now, served) && after[c].id != id
    {
      assert Shaped(sessions[c], c, ids, now);
    }
    forall k | 0 <= k < |served|
      ensures ServedOne(served[k], after, ids + {id}, now)
    {
      assert ServedOne(served[k], sessions, ids, now);
      assert id !in served[k].listed;
    }
  }

  lemma PlacedCapped(sessions: map<string, Session>, now: Time, c: string, s: Session)
    requires |LiveCustomers(sessions, now)| < MAX_SESSIONS
    ensures Capped(sessions[c := s], now)
  {
    var more := LiveCustomers(sessions, now) + {c};
    assert forall d :: d in LiveCustomers(sessions[c := s], now) ==> d in more;
    SubsetSize(LiveCustomers(sessions[c := s], now), more);
  }

  lemma NotedOk(records: map<Slot, Record>, sessions: map<string, Session>, after: map<string, Session>, now: Time,
                slot: Slot, c: string)
    requires RecordsOk(records, sessions, now) && c in after && after[c].expires > now
    requires forall d :: d in sessions && d != c ==> d in after && after[d] == sessions[d]
    ensures RecordsOk(Noted(records, slot, c, after[c], now), after, now)
  {
  }

  lemma PlacedOk(w: World, i: StartInput, id: string)
    requires Inv(w) && id !in w.ids && |LiveCustomers(w.lease.sessions, w.clock)| < MAX_SESSIONS
    ensures var s := NewSession(i, w.clock, id);
      Inv(World(w.lease.(version := w.lease.version + 1, sessions := w.lease.sessions[i.customer := s],
                         records := Noted(w.lease.records, Slot(i.operator, i.key), i.customer, s, w.clock)),
                w.clock, w.ids + {id}, w.served))
  {
    var s := NewSession(i, w.clock, id);
    var sessions := w.lease.sessions;
    PlacedSessionsOk(sessions, w.ids, w.clock, w.served, i, id);
    PlacedCapped(sessions, w.clock, i.customer, s);
    NotedOk(w.lease.records, sessions, sessions[i.customer := s], w.clock, Slot(i.operator, i.key), i.customer);
  }

  /** The three ways a start can go, once the tables are clean. */
  lemma StartCases(l: Lease, i: StartInput, now: Time, id: string)
    ensures var c, r, slot := Cleaned(l, now), Started(l, i, now, id), Slot(i.operator, i.key);
      if r.1.Ok? && r.1.value.isNew then
        var s := NewSession(i, now, id);
        && |LiveCustomers(c.sessions, now)| < MAX_SESSIONS && r.1.value.session == s
        && r.0 == c.(version := c.version + 1, sessions := c.sessions[i.customer := s],
          records := Noted(c.records, slot, i.customer, s, now))
      else
        || r.0 == c
        || (i.customer in c.sessions && Live(c.sessions[i.customer], now)
            && r.0 == c.(records := Noted(c.records, slot, i.customer, c.sessions[i.customer], now)))
  {
  }

  lemma StartOk(w: World, e: Event)
    requires Inv(w) && e.StartCall? && Enabled(w, e)
    ensures Inv(Apply(w, e))
  {
    var v := w.(lease := Cleaned(w.lease, e.now), clock := e.now);
    CleanedOk(w, e.now);
    StartCases(w.lease, e.input, e.now, e.id);
    var r := Started(w.lease, e.input, e.now, e.id);
    if r.1.Ok? && r.1.value.isNew {
      PlacedOk(v, e.input, e.id);
    } else if r.0 != v.lease {
      NotedOk(v.lease.records, v.lease.sessions, v.lease.sessions, e.now, Slot(e.input.operator, e.input.key),
        e.input.customer);
    }
  }

  // Stopping.

  lemma OneChangedOk(w: World, c: string, t: Session)
    requires Inv(w) && c in w.lease.sessions && SessionOk(t, c, w.ids, w.clock, w.served) && !t.enabled
    requires var s := w.lease.sessions[c]; t.id == s.id && t.targets == s.targets && t.expires == s.expires
    ensures Inv(w.(lease := w.lease.(version := w.lease.version + 1, sessions := w.lease.sessions[c := t])))
  {
    var before := w.lease.sessions;
    var after := before[c := t];
    FewerLive(before, after, w.clock, w.clock);
    assert RecordsOk(w.lease.records, after, w.clock);
    assert SessionsOk(after, w.ids, w.clock, w.served);
  }

  lemma StopOk(w: World, e: Event)
    requires Inv(w) && e.StopCall? && Enabled(w, e)
    ensures Inv(Apply(w, e))
  {
    var v := w.(clock := e.now);
    var c := e.customer;
    LaterOk(w, e.now);
    if c in w.lease.sessions && w.lease.sessions[c].id == e.session && w.lease.sessions[c].enabled {
      var s := w.lease.sessions[c];
      OneChangedOk(v, c, StoppedSession(s));
    }
  }

  lemma LaterOk(w: World, now: Time)
    requires Inv(w) && now >= w.clock
    ensures Inv(w.(clock := now))
  {
    FewerLive(w.lease.sessions, w.lease.sessions, w.clock, now);
  }

  // Serving a snapshot.

  lemma MoreServed(s: Session, c: string, ids: set<string>, clock: Time, served: seq<Served>, v: Served)
    requires SessionOk(s, c, ids, clock, served)
    ensures SessionOk(s, c, ids, clock, served + [v])
  {
    forall n | n in s.acks
      ensures Borne(s.id, n, s.acks[n], served + [v])
    {
      var k :| 0 <= k < |served| && Bears(served[k], s.id, n, s.acks[n]);
      assert (served + [v])[k] == served[k];
    }
  }

  lemma FreshlyServed(sessions: map<string, Session>, ids: set<string>, served: seq<Served>, v: Served)
    requires SessionsOk(sessions, ids, v.at, served) && IsListing(v.entries, sessions, v.node, v.at)
    requires BoundTo(v.listed, v.entries)
    ensures ServedOne(v, sessions, ids, v.at)
  {
    forall id | id in v.listed
      ensures id in ids && v.listed[id] == 1
      ensures forall c :: c in sessions && sessions[c].id == id ==> v.node in sessions[c].targets
    {
      var e :| e in v.entries && e.session == id;
      var c :| c in sessions && Lists(sessions[c], v.node, v.at) && e == EntryOf(sessions[c]);
      assert Shaped(sessions[c], c, ids, v.at);
    }
  }

  lemma SnapshotOk(w: World, e: Event)
    requires Inv(w) && e.SnapshotCall? && Enabled(w, e)
    ensures Inv(Apply(w, e))
  {
    var c := Cleaned(w.lease, e.now);
    var v := Served(e.node, e.request, e.now, c.version, e.entries, e.listed);
    var after := Apply(w, e);
    CleanedOk(w, e.now);
    FreshlyServed(c.sessions, w.ids, w.served, v);
    forall d | d in c.sessions
      ensures SessionOk(c.sessions[d], d, w.ids, e.now, after.served)
    {
      MoreServed(c.sessions[d], d, w.ids, e.now, w.served, v);
    }
    forall q | q in after.lease.bindings
      ensures exists k :: 0 <= k < |after.served| && Tells(after.served[k], q, after.lease.bindings[q])
    {
      if q == Query(e.node, e.request) {
        assert Tells(after.served[|w.served|], q, after.lease.bindings[q]);
      } else {
        var k :| 0 <= k < |w.served| && Tells(w.served[k], q, c.bindings[q]);
        assert after.served[k] == w.served[k];
      }
    }
  }

  // Acknowledging.

  lemma {:induction false} CountMeans(s: Session, n: nat)
    requires n <= |s.targets|
    ensures 0 <= EffectiveCount(s, n) <= n
    ensures EffectiveCount(s, n) == n <==> forall i :: 0 <= i < n ==> Effective(s, s.targets[i])
    ensures EffectiveCount(s, n) == 0 <==> forall i :: 0 <= i < n ==> !Effective(s, s.targets[i])
  {
    if n > 0 {
      CountMeans(s, n - 1);
    }
  }

  /** The counting loop gives the state that the targets' words mean. */
  lemma RecomputedAgrees(s: Session)
    requires s.targets != [] && (!s.enabled && s.revision == 2 ==> !AllQuiet(s))
    ensures StateAgrees(Recomputed(s))
  {
    var r := Recomputed(s);
    CountMeans(s, |s.targets|);
    assert forall n :: Effective(r, n) <==> Effective(s, n);
    assert forall n :: Quiet(r, n) <==> Quiet(s, n);
    assert forall n :: n in s.targets <==> exists i :: 0 <= i < |s.targets| && s.targets[i] == n;
    assert s.targets[0] in s.targets;
  }

  lemma AckedOk(s: Session, c: string, ids: set<string>, now: Time, served: seq<Served>, node: int, runtime: string,
                p: Report, v: nat)
    requires SessionOk(s, c, ids, now, served) && node in s.targets && p.revision == 1
    requires v < |served| && served[v].node == node && s.id in served[v].listed && served[v].listed[s.id] == 1
    requires served[v].at <= now <= served[v].at + BINDING_LIFE
    ensures SessionOk(Acked(s, node, runtime, p, now), c, ids, now, served)
  {
    var a := Ack(node, runtime, p.effective, p.revision, now, p.deadline, p.reason);
    var t := s.(acks := s.acks[node := a]);
    assert Bears(served[v], s.id, node, a);
    assert AcksBorne(t, served);
    if !s.enabled && s.revision == 2 {
      assert !Quiet(t, t.targets[0]) by { assert t.targets[0] in t.targets; }
    }
    RecomputedAgrees(t);
  }

  lemma WithAckOk(sessions: map<string, Session>, ids: set<string>, now: Time, served: seq<Served>, node: int,
                  runtime: string, p: Report, v: nat)
    requires SessionsOk(sessions, ids, now, served) && ServedOk(served, sessions, ids, now) && v < |served|
    requires served[v].node == node && now <= served[v].at + BINDING_LIFE && Admissible(served[v].listed, p)
    ensures SessionsOk(WithAck(sessions, node, runtime, p, now), ids, now, served)
    ensures ServedOk(served, WithAck(sessions, node, runtime, p, now), ids, now)
  {
    var after := WithAck(sessions, node, runtime, p, now);
    assert ServedOne(served[v], sessions, ids, now);
    forall c | c in sessions
      ensures SessionOk(after[c], c, ids, now, served) && after[c].id == sessions[c].id
      ensures after[c].targets == sessions[c].targets
    {
      if sessions[c].id == p.session {
        AckedOk(sessions[c], c, ids, now, served, node, runtime, p, v);
      }
    }
  }

  /** An acknowledgement changes nothing but acknowledgements and states. */
  ghost predicate OnlyAcks(before: map<string, Session>, after: map<string, Session>) {
    && after.Keys == before.Keys
    && forall c :: c in before ==> after[c] == before[c].(acks := after[c].acks, state := after[c].state)
  }

  lemma {:induction false} ReportedOk(sessions: map<string, Session>, ids: set<string>, now: Time, served: seq<Served>,
                                      node: int, runtime: string, reports: seq<Report>, v: nat)
    requires SessionsOk(sessions, ids, now, served) && ServedOk(served, sessions, ids, now) && v < |served|
    requires served[v].node == node && now <= served[v].at + BINDING_LIFE
    ensures var after := Reported(sessions, node, runtime, served[v].listed, reports, now).0;
      SessionsOk(after, ids, now, served) && ServedOk(served, after, ids, now)
    decreases |reports|
  {
    if reports != [] && Admissible(served[v].listed, reports[0]) {
      WithAckOk(sessions, ids, now, served, node, runtime, reports[0], v);
      ReportedOk(WithAck(sessions, node, runtime, reports[0], now), ids, now, served, node, runtime, reports[1..], v);
    }
  }

  lemma {:induction false} ReportedOnlyAcks(sessions: map<string, Session>, node: int, runtime: string,
                                            listed: map<string, int>, reports: seq<Report>, now: Time)
    ensures OnlyAcks(sessions, Reported(sessions, node, runtime, listed, reports, now).0)
    decreases |reports|
  {
    if reports != [] && Admissible(listed, reports[0]) {
      ReportedOnlyAcks(WithAck(sessions, node, runtime, reports[0], now), node, runtime, listed, reports[1..], now);
    }
  }

  lemma AckOnlyAcks(l: Lease, node: int, runtime: string, p: Payload, now: Time)
    ensures var r := Acknowledged(l, node, runtime, p, now).0;
      OnlyAcks(l.sessions, r.sessions) && r == l.(sessions := r.sessions)
  {
    if Recognized(l, node, p, now) {
      ReportedOnlyAcks(l.sessions, node, runtime, l.bindings[Query(node, p.request)].listed, p.reports, now);
    }
  }

  lemma AckOk(w: World, e: Event)
    requires Inv(w) && e.AckCall? && Enabled(w, e)
    ensures Inv(Apply(w, e))
  {
    var after := Apply(w, e).lease.sessions;
    LaterOk(w, e.now);
    AckOnlyAcks(w.lease, e.node, e.runtime, e.payload, e.now);
    if Recognized(w.lease, e.node, e.payload, e.now) {
      var q := Query(e.node, e.payload.request);
      var v :| 0 <= v < |w.served| && Tells(w.served[v], q, w.lease.bindings[q]);
      ReportedOk(w.lease.sessions, w.ids, e.now, w.served, e.node, e.runtime, e.payload.reports, v);
    }
    FewerLive(w.lease.sessions, after, w.clock, e.now);
  }

  lemma StepInv(w: World, e: Event)
    requires Inv(w) && Enabled(w, e)
    ensures Inv(Apply(w, e)) && Apply(w, e).clock == e.now && w.ids <= Apply(w, e).ids
  {
    match e
    case StartCall(_, _, _) => StartOk(w, e);
    case StopCall(_, _, _) => StopOk(w, e);
    case SnapshotCall(_, _, _, _, _, _) => SnapshotOk(w, e);
    case AckCall(_, _, _, _) => AckOk(w, e);
  }

  lemma {:induction false} RunInv(ws: seq<World>, es: seq<Event>, k: nat)
    requires Run(ws, es) && k < |ws|
    ensures Inv(ws[k])
  {
    if k == 0 {
      assert LiveCustomers(ws[0].lease.sessions, ws[0].clock) == {};
    } else {
      RunInv(ws, es, k - 1);
      assert ws[k - 1 + 1] == Apply(ws[k - 1], es[k - 1]);
      StepInv(ws[k - 1], es[k - 1]);
    }
  }

  // Whole runs: the cap.

  /** At every reachable state and at every later time at most ten sessions run, no two under one identifier, each
      under its own customer. */
  lemma CapOverRuns(ws: seq<World>, es: seq<Event>, k: nat, t: Time)
    requires Run(ws, es) && k < |ws| && t >= ws[k].clock
    ensures |LiveCustomers(ws[k].lease.sessions, t)| <= MAX_SESSIONS
    ensures forall c :: c in ws[k].lease.sessions ==> ws[k].lease.sessions[c].customer == c
    ensures forall c, d :: c in ws[k].lease.sessions && d in ws[k].lease.sessions && c != d ==>
      ws[k].lease.sessions[c].id != ws[k].lease.sessions[d].id
  {
    RunInv(ws, es, k);
    FewerLive(ws[k].lease.sessions, ws[k].lease.sessions, ws[k].clock, t);
  }

  // Acknowledgements.

  /** Every recorded acknowledgement is from a target, at a revision that a snapshot served to that node listed no
      more than a minute earlier. */
  lemma AckProvenance(ws: seq<World>, es: seq<Event>, k: nat, c: string, n: int)
    requires Run(ws, es) && k < |ws| && c in ws[k].lease.sessions && n in ws[k].lease.sessions[c].acks
    ensures var s := ws[k].lease.sessions[c];
      && n in s.targets
      && (exists v :: v in ws[k].served && v.node == n && v.at <= s.acks[n].at <= v.at + BINDING_LIFE
                      && (exists x :: x in v.entries && x.session == s.id && x.revision == s.acks[n].revision))
  {
    RunInv(ws, es, k);
    var s := ws[k].lease.sessions[c];
    assert SessionOk(s, c, ws[k].ids, ws[k].clock, ws[k].served);
    assert Borne(s.id, n, s.acks[n], ws[k].served);
    var v :| 0 <= v < |ws[k].served| && Bears(ws[k].served[v], s.id, n, s.acks[n]);
    assert ServedOne(ws[k].served[v], ws[k].lease.sessions, ws[k].ids, ws[k].clock);
    var x :| x in ws[k].served[v].entries && x.session == s.id;
    assert ws[k].served[v] in ws[k].served;
  }

  /** The state of a running session is what its targets said, and `Stopped` is never claimed without their word. */
  lemma DerivedState(ws: seq<World>, es: seq<Event>, k: nat, c: string)
    requires Run(ws, es) && k < |ws| && c in ws[k].lease.sessions
    ensures StateAgrees(ws[k].lease.sessions[c])
    ensures var s := ws[k].lease.sessions[c];
      s.state == Stopped ==> !s.enabled && forall n :: n in s.targets ==> Quiet(s, n)
  {
    RunInv(ws, es, k);
    assert SessionOk(ws[k].lease.sessions[c], c, ws[k].ids, ws[k].clock, ws[k].served);
  }

  /** A report that the snapshot does not bear out stops the processing; what came before it stays applied. */
  lemma {:induction false} RejectedKeepsPrefix(sessions: map<string, Session>, node: int, runtime: string,
                                               listed: map<string, int>,
                                               reports: seq<Report>, now: Time, b: nat)
    requires b <= |reports| && forall i :: 0 <= i < b ==> Admissible(listed, reports[i])
    requires b < |reports| ==> !Admissible(listed, reports[b])
    ensures Reported(sessions, node, runtime, listed, reports[..b], now).1
    ensures Reported(sessions, node, runtime, listed, reports, now)
         == (Reported(sessions, node, runtime, listed, reports[..b], now).0, b == |reports|)
    decreases b
  {
    if b > 0 {
      var after := WithAck(sessions, node, runtime, reports[0], now);
      RejectedKeepsPrefix(after, node, runtime, listed, reports[1..], now, b - 1);
      assert reports[..b][1..] == reports[1..][..b - 1];
    }
  }

  // What a session keeps.

  /** `t` is `s` later on: same terms, and once off it stays off as it is. */
  ghost predicate Continues(s: Session, t: Session) {
    && t.id == s.id && t.customer == s.customer && t.operator == s.operator && t.created == s.created
    && t.issued == s.issued && t.expires == s.expires && t.targets == s.targets
    && t.revision >= s.revision && (!s.enabled ==> !t.enabled && t.revision == s.revision)
  }

  /** The sessions in the later table that are not new were in the earlier one, and continue it. */
  ghost predicate KeptSessions(ids: set<string>, before: map<string, Session>, after: map<string, Session>) {
    forall c :: c in after && after[c].id in ids ==> c in before && Continues(before[c], after[c])
  }

  ghost predicate Kept(v: World, w: World) {
    && v.ids <= w.ids && v.clock <= w.clock && v.lease.version <= w.lease.version
    && KeptSessions(v.ids, v.lease.sessions, w.lease.sessions)
  }

  lemma KeptStep(w: World, e: Event)
    requires Enabled(w, e)
    ensures Kept(w, Apply(w, e))
  {
    match e
    case StartCall(i, now, id) =>
      StartCases(w.lease, i, now, id);
      assert KeptSessions(w.ids, w.lease.sessions, CleanedSessions(w.lease.sessions, now));
    case StopCall(customer, id, _) => HaltedKeeps(w.ids, w.lease, customer, id);
    case SnapshotCall(_, _, _, _, _, _) =>
    case AckCall(node, runtime, p, now) => AckKeeps(w.ids, w.lease, node, runtime, p, now);
  }

  lemma HaltedKeeps(ids: set<string>, l: Lease, customer: string, id: string)
    ensures KeptSessions(ids, l.sessions, Halted(l, customer, id).0.sessions)
  {
  }

  lemma AckKeeps(ids: set<string>, l: Lease, node: int, runtime: string, p: Payload, now: Time)
    ensures KeptSessions(ids, l.sessions, Acknowledged(l, node, runtime, p, now).0.sessions)
    ensures Acknowledged(l, node, runtime, p, now).0.version == l.version
  {
    AckOnlyAcks(l, node, runtime, p, now);
  }

  lemma KeptNext(ws: seq<World>, es: seq<Event>, k: nat)
    requires Run(ws, es) && k < |es|
    ensures Kept(ws[k], ws[k + 1])
  {
    KeptStep(ws[k], es[k]);
  }

  lemma {:induction false} KeptRun(ws: seq<World>, es: seq<Event>, j: nat, k: nat)
    requires Run(ws, es) && j <= k < |ws|
    ensures Kept(ws[j], ws[k])
    decreases k
  {
    if j < k {
      KeptRun(ws, es, j, k - 1);
      KeptNext(ws, es, k - 1);
    }
  }

  /** A session never gets more than its fifteen minutes, whatever happens to it. */
  lemma NeverExtended(ws: seq<World>, es: seq<Event>, j: nat, k: nat, c: string, d: string)
    requires Run(ws, es) && j <= k < |ws| && c in ws[j].lease.sessions && d in ws[k].lease.sessions
    requires ws[j].lease.sessions[c].id == ws[k].lease.sessions[d].id
    ensures c == d && Continues(ws[j].lease.sessions[c], ws[k].lease.sessions[d])
    ensures ws[k].lease.sessions[d].expires == ws[j].lease.sessions[c].issued + SESSION_LIFE
  {
    RunInv(ws, es, j);
    KeptRun(ws, es, j, k);
    assert SessionOk(ws[j].lease.sessions[c], c, ws[j].ids, ws[j].clock, ws[j].served);
    assert SessionOk(ws[j].lease.sessions[d], d, ws[j].ids, ws[j].clock, ws[j].served);
  }

  // Snapshots.

  /** The session is over: stopped, out of time, or gone. */
  ghost predicate Ended(w: World, id: string) {
    && id in w.ids
    && forall c :: c in w.lease.sessions && w.lease.sessions[c].id == id ==>
         !w.lease.sessions[c].enabled || w.clock > w.lease.sessions[c].expires
  }

  lemma StopEnds(w: World, e: Event)
    requires Inv(w) && Enabled(w, e) && e.StopCall? && Halted(w.lease, e.customer, e.session).1.Ok?
    ensures Ended(Apply(w, e), e.session)
  {
    assert SessionOk(w.lease.sessions[e.customer], e.customer, w.ids, w.clock, w.served);
    StepInv(w, e);
  }

  /** No snapshot lists a session after it has ended. */
  lemma NeverListedAgain(ws: seq<World>, es: seq<Event>, j: nat, k: nat, id: string)
    requires Run(ws, es) && j <= k < |es| && es[k].SnapshotCall? && Ended(ws[j], id)
    ensures id !in es[k].listed && forall x :: x in es[k].entries ==> x.session != id
  {
    KeptRun(ws, es, j, k + 1);
    ListedFrom(ws, es, k);
    KeptRun(ws, es, j, k);
    var w := ws[k + 1].lease.sessions;
    forall x | x in es[k].entries
      ensures x.session != id
    {
      var c :| c in w && Lists(w[c], es[k].node, es[k].now) && x == EntryOf(w[c]);
      assert w[c].id in ws[j].ids ==> Continues(ws[j].lease.sessions[c], w[c]);
    }
  }

  /** Nor one whose time is past at the moment of the snapshot. */
  lemma NeverListedLate(ws: seq<World>, es: seq<Event>, j: nat, k: nat, c: string)
    requires Run(ws, es) && j <= k < |es| && es[k].SnapshotCall? && c in ws[j].lease.sessions
    requires es[k].now > ws[j].lease.sessions[c].expires
    ensures forall x :: x in es[k].entries ==> x.session != ws[j].lease.sessions[c].id
  {
    KeptRun(ws, es, j, k + 1);
    ListedFrom(ws, es, k);
    IssuedRun(ws, es, j, c);
    DistinctRun(ws, es, j);
    var w, id := ws[k + 1].lease.sessions, ws[j].lease.sessions[c].id;
    forall x | x in es[k].entries
      ensures x.session != id
    {
      var d :| d in w && Lists(w[d], es[k].node, es[k].now) && x == EntryOf(w[d]);
      assert w[d].id in ws[j].ids ==> Continues(ws[j].lease.sessions[d], w[d]);
      assert d == c ==> w[d].id != id;
    }
  }

  lemma IssuedRun(ws: seq<World>, es: seq<Event>, k: nat, c: string)
    requires Run(ws, es) && k < |ws| && c in ws[k].lease.sessions
    ensures ws[k].lease.sessions[c].id in ws[k].ids
  {
    RunInv(ws, es, k);
    assert SessionOk(ws[k].lease.sessions[c], c, ws[k].ids, ws[k].clock, ws[k].served);
  }

  /** A session stopped by request is never confirmed as stopped, for no snapshot carries its new revision: it stays
      `Stopping` for good, unless it had no targets. */
  lemma StopIsNeverConfirmed(ws: seq<World>, es: seq<Event>, j: nat, k: nat, c: string)
    requires Run(ws, es) && j < k < |ws| && es[j].StopCall? && c == es[j].customer
    requires c in ws[j].lease.sessions && ws[j].lease.sessions[c].id == es[j].session && ws[j].lease.sessions[c].enabled
    requires c in ws[k].lease.sessions && ws[k].lease.sessions[c].id == es[j].session
    ensures var s := ws[k].lease.sessions[c]; !s.enabled && s.state == if s.targets == [] then Stopped else Stopping
  {
    RunInv(ws, es, j);
    assert ws[j + 1] == Apply(ws[j], es[j]);
    assert SessionOk(ws[j].lease.sessions[c], c, ws[j].ids, ws[j].clock, ws[j].served);
    KeptRun(ws, es, j + 1, k);
    assert Continues(ws[j + 1].lease.sessions[c], ws[k].lease.sessions[c]);
    DerivedState(ws, es, k, c);
  }

  // Versions.

  /** Nothing started and nothing stopped: the running sessions are the same but for those whose time is past. */
  ghost predicate SameRunning(v: map<string, Session>, w: map<string, Session>, now: Time) {
    && (forall c :: c in v && v[c].enabled && now <= v[c].expires ==> c in w && w[c].enabled)
    && (forall c :: c in w && w[c].enabled ==> c in v && v[c].enabled && Alike(v[c], w[c]))
  }

  predicate Alike(s: Session, t: Session) {
    EntryOf(s) == EntryOf(t) && s.targets == t.targets && s.expires == t.expires
  }

  lemma SameRunningStep(w: World, e: Event)
    requires Enabled(w, e) && Apply(w, e).lease.version == w.lease.version
    ensures SameRunning(w.lease.sessions, Apply(w, e).lease.sessions, e.now)
  {
    match e
    case StartCall(i, now, id) =>
      StartCases(w.lease, i, now, id);
      CleaningSameRunning(w.lease.sessions, now);
    case StopCall(_, _, _) =>
    case SnapshotCall(_, _, _, now, _, _) => CleaningSameRunning(w.lease.sessions, now);
    case AckCall(node, runtime, p, now) => AckSameRunning(w.lease, node, runtime, p, now);
  }

  lemma CleaningSameRunning(sessions: map<string, Session>, now: Time)
    ensures SameRunning(sessions, CleanedSessions(sessions, now), now)
  {
  }

  lemma AckSameRunning(l: Lease, node: int, runtime: string, p: Payload, now: Time)
    ensures SameRunning(l.sessions, Acknowledged(l, node, runtime, p, now).0.sessions, now)
  {
    AckOnlyAcks(l, node, runtime, p, now);
  }

  lemma SameRunningNext(ws: seq<World>, es: seq<Event>, k: nat)
    requires Run(ws, es) && k < |es| && ws[k].lease.version == ws[k + 1].lease.version
    ensures SameRunning(ws[k].lease.sessions, ws[k + 1].lease.sessions, ws[k + 1].clock)
  {
    SameRunningStep(ws[k], es[k]);
    assert ws[k + 1].clock == es[k].now;
  }

  lemma {:induction false} SameRunningRun(ws: seq<World>, es: seq<Event>, j: nat, k: nat)
    requires Run(ws, es) && j <= k < |ws| && ws[j].lease.version == ws[k].lease.version
    ensures SameRunning(ws[j].lease.sessions, ws[k].lease.sessions, ws[k].clock)
    decreases k
  {
    if j < k {
      KeptRun(ws, es, j, k - 1);
      KeptRun(ws, es, k - 1, k);
      SameRunningRun(ws, es, j, k - 1);
      SameRunningNext(ws, es, k - 1);
      var u, v, w := ws[j].lease.sessions, ws[k - 1].lease.sessions, ws[k].lease.sessions;
    }
  }

  /** After a snapshot the table is the one it was taken from. */
  lemma ListedFrom(ws: seq<World>, es: seq<Event>, k: nat)
    requires Run(ws, es) && k < |es| && es[k].SnapshotCall?
    ensures IsListing(es[k].entries, ws[k + 1].lease.sessions, es[k].node, es[k].now)
    ensures ws[k + 1].clock == es[k].now >= ws[k].clock && ws[k + 1].lease.version == ws[k].lease.version
    ensures BoundTo(es[k].listed, es[k].entries)
  {
    assert Enabled(ws[k], es[k]);
  }

  /** Two snapshots for one node under one version: the later lists nothing else, and of what the earlier listed
      exactly the sessions whose time is not past. */
  lemma SameVersionSameListing(ws: seq<World>, es: seq<Event>, j: nat, k: nat, c: string)
    requires Run(ws, es) && j <= k < |es| && es[j].SnapshotCall? && es[k].SnapshotCall? && es[j].node == es[k].node
    requires ws[j].lease.version == ws[k].lease.version
    ensures forall x :: x in es[k].entries ==> x in es[j].entries
    ensures c in ws[j + 1].lease.sessions && EntryOf(ws[j + 1].lease.sessions[c]) in es[j].entries ==>
      (EntryOf(ws[j + 1].lease.sessions[c]) in es[k].entries <==> es[k].now <= ws[j + 1].lease.sessions[c].expires)
  {
    ListedFrom(ws, es, j);
    ListedFrom(ws, es, k);
    KeptRun(ws, es, j + 1, k + 1);
    SameRunningRun(ws, es, j + 1, k + 1);
    DistinctRun(ws, es, j + 1);
    SameListing(ws[j + 1].lease.sessions, ws[k + 1].lease.sessions, es[j].entries, es[k].entries, es[j].node,
      es[j].now, es[k].now);
    if c in ws[j + 1].lease.sessions && EntryOf(ws[j + 1].lease.sessions[c]) in es[j].entries {
      StillListed(ws[j + 1].lease.sessions, ws[k + 1].lease.sessions, es[j].entries, es[k].entries, es[j].node,
        es[j].now, es[k].now, c);
    }
  }

  lemma DistinctRun(ws: seq<World>, es: seq<Event>, k: nat)
    requires Run(ws, es) && k < |ws|
    ensures Distinct(ws[k].lease.sessions)
  {
    RunInv(ws, es, k);
  }

  lemma SameListing(v: map<string, Session>, w: map<string, Session>, first: seq<Entry>, second: seq<Entry>, node: int,
                    earlier: Time, now: Time)
    requires SameRunning(v, w, now) && earlier <= now && IsListing(first, v, node, earlier)
    requires IsListing(second, w, node, now)
    ensures forall x :: x in second ==> x in first
  {
    forall x | x in second
      ensures x in first
    {
      var c :| c in w && Lists(w[c], node, now) && x == EntryOf(w[c]);
      assert Alike(v[c], w[c]);
      assert Lists(v[c], node, earlier);
    }
  }

  lemma StillListed(v: map<string, Session>, w: map<string, Session>, first: seq<Entry>, second: seq<Entry>, node: int,
                    earlier: Time, now: Time, c: string)
    requires Distinct(v) && SameRunning(v, w, now) && earlier <= now
    requires IsListing(first, v, node, earlier) && IsListing(second, w, node, now) && c in v && EntryOf(v[c]) in first
    ensures EntryOf(v[c]) in second <==> now <= v[c].expires
  {
    var x := EntryOf(v[c]);
    var a :| a in v && Lists(v[a], node, earlier) && x == EntryOf(v[a]);
    assert v[a].id == v[c].id;
    if x in second {
      var b :| b in w && Lists(w[b], node, now) && x == EntryOf(w[b]);
      assert Alike(v[b], w[b]);
      assert v[b].id == v[c].id;
    }
    if now <= v[c].expires {
      assert Alike(v[c], w[c]);
      assert Lists(w[c], node, now);
    }
  }

  // Repeated starts.

  /** A remembered start is always of a customer that has a session. */
  lemma RecordsHaveSessions(ws: seq<World>, es: seq<Event>, k: nat, slot: Slot)
    requires Run(ws, es) && k < |ws| && slot in ws[k].lease.records
    ensures ws[k].lease.records[slot].customer in ws[k].lease.sessions
  {
    RunInv(ws, es, k);
  }

  /** The session of a remembered start is the customer's present one. */
  predicate InPlace(l: Lease, r: Record) {
    r.customer in l.sessions && l.sessions[r.customer].id == r.session
  }

  lemma StartIsRemembered(w: World, e: Event)
    requires Inv(w) && Enabled(w, e) && e.StartCall? && e.input.key != ""
    requires Started(w.lease, e.input, e.now, e.id).1.Ok?
    ensures var r, slot := Started(w.lease, e.input, e.now, e.id), Slot(e.input.operator, e.input.key);
      && slot in r.0.records && r.0.records[slot].customer == e.input.customer
      && r.0.records[slot].session == r.1.value.session.id && InPlace(r.0, r.0.records[slot])
      && r.0.sessions[e.input.customer] == r.1.value.session
      && (r.1.value.isNew ==> r.0.records[slot].created == e.now)
  {
  }

  lemma RecordStep(w: World, e: Event, slot: Slot)
    requires RecordsOk(w.lease.records, w.lease.sessions, w.clock) && e.now >= w.clock
    requires slot in w.lease.records && InPlace(w.lease, w.lease.records[slot])
    requires e.now - w.lease.records[slot].created <= RECORD_LIFE
    ensures slot in Apply(w, e).lease.records && Apply(w, e).lease.records[slot] == w.lease.records[slot]
  {
    match e
    case StartCall(i, now, id) => StartKeepsRecord(w.lease, w.clock, i, now, id, slot);
    case StopCall(_, _, _) =>
    case SnapshotCall(_, _, _, _, _, _) =>
    case AckCall(_, _, _, _) =>
  }

  lemma StartKeepsRecord(l: Lease, clock: Time, i: StartInput, now: Time, id: string, slot: Slot)
    requires RecordsOk(l.records, l.sessions, clock) && now >= clock
    requires slot in l.records && InPlace(l, l.records[slot]) && now - l.records[slot].created <= RECORD_LIFE
    ensures var r := Started(l, i, now, id).0; slot in r.records && r.records[slot] == l.records[slot]
  {
    CleanedRecordsOk(l, clock, now);
    var c := Cleaned(l, now);
    assert slot in c.records && c.records[slot] == l.records[slot];
    assert InPlace(c, c.records[slot]);
    if slot != Slot(i.operator, i.key) {
      StartCases(l, i, now, id);
    }
  }

  lemma RecordNext(ws: seq<World>, es: seq<Event>, k: nat, slot: Slot)
    requires Run(ws, es) && k < |es| && slot in ws[k].lease.records && InPlace(ws[k].lease, ws[k].lease.records[slot])
    requires ws[k + 1].clock - ws[k].lease.records[slot].created <= RECORD_LIFE
    ensures slot in ws[k + 1].lease.records && ws[k + 1].lease.records[slot] == ws[k].lease.records[slot]
  {
    RunInv(ws, es, k);
    assert ws[k + 1].clock == es[k].now;
    RecordStep(ws[k], es[k], slot);
  }

  /** Every record is of an identifier given out, and of a session issued no later than the record. */
  ghost predicate Dated(w: World) {
    forall k :: k in w.lease.records ==> w.lease.records[k].session in w.ids && NotBefore(w.lease, w.lease.records[k])
  }

  predicate NotBefore(l: Lease, r: Record) {
    InPlace(l, r) ==> l.sessions[r.customer].issued <= r.created
  }

  lemma StepDated(w: World, e: Event)
    requires Inv(w) && Enabled(w, e) && Dated(w)
    ensures Dated(Apply(w, e))
  {
    var after := Apply(w, e);
    KeptStep(w, e);
    forall k | k in after.lease.records
      ensures after.lease.records[k].session in after.ids && NotBefore(after.lease, after.lease.records[k])
    {
      var r := after.lease.records[k];
      if k in w.lease.records && w.lease.records[k] == r {
      } else {
        NewRecordDated(w, e, k);
      }
    }
  }

  lemma NewRecordDated(w: World, e: Event, k: Slot)
    requires Inv(w) && Enabled(w, e) && k in Apply(w, e).lease.records
    requires !(k in w.lease.records && w.lease.records[k] == Apply(w, e).lease.records[k])
    ensures var after := Apply(w, e);
      after.lease.records[k].session in after.ids && NotBefore(after.lease, after.lease.records[k])
  {
    assert e.StartCall?;
    StartRecord(w.lease, e.input, e.now, e.id, k);
    CleanedSessionsOk(w.lease.sessions, w.ids, w.clock, w.served, e.now);
    var c := CleanedSessions(w.lease.sessions, e.now);
    assert e.input.customer in c ==> SessionOk(c[e.input.customer], e.input.customer, w.ids, e.now, w.served);
  }

  /** A record that a start makes is of the new session, or of one it found running. */
  lemma StartRecord(l: Lease, i: StartInput, now: Time, id: string, k: Slot)
    requires k in Started(l, i, now, id).0.records
    requires !(k in l.records && l.records[k] == Started(l, i, now, id).0.records[k])
    ensures var r, c := Started(l, i, now, id), CleanedSessions(l.sessions, now);
      && r.1.Ok? && r.0.records[k].customer == i.customer && r.0.records[k].created == now
      && i.customer in r.0.sessions && r.0.records[k].session == r.0.sessions[i.customer].id
      && if r.1.value.isNew then r.0.sessions[i.customer] == NewSession(i, now, id)
         else i.customer in c && r.0.sessions[i.customer] == c[i.customer]
  {
    StartCases(l, i, now, id);
  }

  lemma {:induction false} RunDated(ws: seq<World>, es: seq<Event>, k: nat)
    requires Run(ws, es) && k < |ws|
    ensures Dated(ws[k])
  {
    if k > 0 {
      RunDated(ws, es, k - 1);
      RunInv(ws, es, k - 1);
      StepDated(ws[k - 1], es[k - 1]);
    }
  }

  /** A session that is in place now has been all along. */
  lemma InPlaceBefore(ws: seq<World>, es: seq<Event>, j: nat, k: nat, r: Record)
    requires Run(ws, es) && j <= k < |ws| && r.session in ws[j].ids && InPlace(ws[k].lease, r)
    ensures InPlace(ws[j].lease, r) && Continues(ws[j].lease.sessions[r.customer], ws[k].lease.sessions[r.customer])
  {
    KeptRun(ws, es, j, k);
  }

  /** While its session is in place no call removes or replaces a record within its day. */
  lemma {:induction false} RecordStays(ws: seq<World>, es: seq<Event>, j: nat, k: nat, slot: Slot)
    requires Run(ws, es) && j <= k < |ws| && slot in ws[j].lease.records
    requires InPlace(ws[k].lease, ws[j].lease.records[slot])
    requires ws[k].clock - ws[j].lease.records[slot].created <= RECORD_LIFE
    ensures slot in ws[k].lease.records && ws[k].lease.records[slot] == ws[j].lease.records[slot]
    decreases k
  {
    if j < k {
      RunDated(ws, es, j);
      KeptRun(ws, es, j, k - 1);
      KeptRun(ws, es, k - 1, k);
      InPlaceBefore(ws, es, k - 1, k, ws[j].lease.records[slot]);
      RecordStays(ws, es, j, k - 1, slot);
      RecordNext(ws, es, k - 1, slot);
    }
  }

  /** Past the day of its record a session is no longer live. */
  lemma DeadAfterADay(ws: seq<World>, es: seq<Event>, j: nat, k: nat, slot: Slot, now: Time)
    requires Run(ws, es) && j <= k < |ws| && slot in ws[j].lease.records
    requires InPlace(ws[k].lease, ws[j].lease.records[slot])
    requires now - ws[j].lease.records[slot].created > RECORD_LIFE
    ensures now > ws[k].lease.sessions[ws[j].lease.records[slot].customer].expires
  {
    var r := ws[j].lease.records[slot];
    RunDated(ws, es, j);
    InPlaceBefore(ws, es, j, k, r);
    RunInv(ws, es, j);
    assert NotBefore(ws[j].lease, r);
    assert SessionOk(ws[j].lease.sessions[r.customer], r.customer, ws[j].ids, ws[j].clock, ws[j].served);
  }

  /** A start after the session's end makes no new record of it. */
  lemma NoLateRecord(w: World, e: Event, slot: Slot, c: string, id: string)
    requires Enabled(w, e) && c in w.lease.sessions && w.lease.sessions[c].id == id && id in w.ids
    requires Distinct(w.lease.sessions) && e.now > w.lease.sessions[c].expires
    requires var l := Apply(w, e).lease; slot in l.records && l.records[slot].session == id
    ensures slot in w.lease.records && Apply(w, e).lease.records[slot] == w.lease.records[slot]
  {
    if e.StartCall? {
      StartCases(w.lease, e.input, e.now, e.id);
    }
  }

  /** As long as the session is in place, the slot holds that one record of it or none. */
  lemma {:induction false} OneRecord(ws: seq<World>, es: seq<Event>, j: nat, k: nat, slot: Slot)
    requires Run(ws, es) && j <= k < |ws| && slot in ws[j].lease.records
    requires InPlace(ws[k].lease, ws[j].lease.records[slot])
    requires slot in ws[k].lease.records && ws[k].lease.records[slot].session == ws[j].lease.records[slot].session
    ensures ws[k].lease.records[slot] == ws[j].lease.records[slot]
    decreases k
  {
    var r := ws[j].lease.records[slot];
    if ws[k].clock - r.created <= RECORD_LIFE {
      RecordStays(ws, es, j, k, slot);
    } else if j < k {
      RecordIsOld(ws, es, j, k, slot);
      OneRecord(ws, es, j, k - 1, slot);
    }
  }

  /** A record of the session that is there after its day was there before the last step. */
  lemma RecordIsOld(ws: seq<World>, es: seq<Event>, j: nat, k: nat, slot: Slot)
    requires Run(ws, es) && j < k < |ws| && slot in ws[j].lease.records
    requires InPlace(ws[k].lease, ws[j].lease.records[slot])
    requires slot in ws[k].lease.records && ws[k].lease.records[slot].session == ws[j].lease.records[slot].session
    requires ws[k].clock - ws[j].lease.records[slot].created > RECORD_LIFE
    ensures InPlace(ws[k - 1].lease, ws[j].lease.records[slot])
    ensures slot in ws[k - 1].lease.records && ws[k - 1].lease.records[slot] == ws[k].lease.records[slot]
  {
    StepAt(ws, es, k - 1);
    LateStep(ws, es, j, k, slot);
    NoLateRecord(ws[k - 1], es[k - 1], slot, ws[j].lease.records[slot].customer, ws[j].lease.records[slot].session);
  }

  lemma LateStep(ws: seq<World>, es: seq<Event>, j: nat, k: nat, slot: Slot)
    requires Run(ws, es) && j < k < |ws| && slot in ws[j].lease.records
    requires InPlace(ws[k].lease, ws[j].lease.records[slot])
    requires ws[k].clock - ws[j].lease.records[slot].created > RECORD_LIFE
    ensures var r, w := ws[j].lease.records[slot], ws[k - 1];
      InPlace(w.lease, r) && r.session in w.ids && ws[k].clock > w.lease.sessions[r.customer].expires
  {
    RunDated(ws, es, j);
    KeptRun(ws, es, j, k - 1);
    InPlaceBefore(ws, es, k - 1, k, ws[j].lease.records[slot]);
    DeadAfterADay(ws, es, j, k - 1, slot, ws[k].clock);
  }

  lemma StepAt(ws: seq<World>, es: seq<Event>, k: nat)
    requires Run(ws, es) && k < |es|
    ensures Enabled(ws[k], es[k]) && ws[k + 1] == Apply(ws[k], es[k]) && ws[k + 1].clock == es[k].now
    ensures Distinct(ws[k].lease.sessions)
  {
    RunInv(ws, es, k);
  }

  /** The start at `j` succeeded; the one at `k` repeats its operator, key and customer, and finds its session in
      place. */
  ghost predicate Repeats(ws: seq<World>, es: seq<Event>, j: nat, k: nat) {
    && Run(ws, es) && j < k < |es| && es[j].StartCall? && es[k].StartCall? && es[j].input.key != ""
    && es[k].input == es[j].input.(targets := es[k].input.targets)
    && var r := Started(ws[j].lease, es[j].input, es[j].now, es[j].id).1;
       r.Ok? && es[j].input.customer in ws[k].lease.sessions
       && ws[k].lease.sessions[es[j].input.customer].id == r.value.session.id
  }

  /** What is known of the record of the first start when the second one comes. */
  lemma RepeatedRecord(ws: seq<World>, es: seq<Event>, j: nat, k: nat)
    requires Repeats(ws, es, j, k)
    ensures var slot := Slot(es[j].input.operator, es[j].input.key);
      var s := Started(ws[j].lease, es[j].input, es[j].now, es[j].id).1.value.session;
      && slot in ws[j + 1].lease.records
      && ws[j + 1].lease.records[slot].customer == es[j].input.customer && ws[j + 1].lease.records[slot].session == s.id
      && Continues(s, ws[k].lease.sessions[es[j].input.customer])
  {
    RememberedAt(ws, es, j);
    RunDated(ws, es, j + 1);
    InPlaceBefore(ws, es, j + 1, k, ws[j + 1].lease.records[Slot(es[j].input.operator, es[j].input.key)]);
  }

  lemma RememberedAt(ws: seq<World>, es: seq<Event>, j: nat)
    requires Run(ws, es) && j < |es| && es[j].StartCall? && es[j].input.key != ""
    requires Started(ws[j].lease, es[j].input, es[j].now, es[j].id).1.Ok?
    ensures var slot := Slot(es[j].input.operator, es[j].input.key);
      var s := Started(ws[j].lease, es[j].input, es[j].now, es[j].id).1.value.session;
      && slot in ws[j + 1].lease.records && es[j].input.customer in ws[j + 1].lease.sessions
      && ws[j + 1].lease.records[slot].customer == es[j].input.customer && ws[j + 1].lease.records[slot].session == s.id
      && ws[j + 1].lease.sessions[es[j].input.customer] == s
  {
    StepAt(ws, es, j);
    RunInv(ws, es, j);
    StartIsRemembered(ws[j], es[j]);
  }

  /** Starting again with the operator, key and customer of an earlier start while its session is in place, whatever
      happened in between, finds that session if and only if the record of the start is at most a day old. Then nothing
      changes but what cleaning up changes; otherwise a new session is started or the start is refused. */
  lemma ReplayIsHarmless(ws: seq<World>, es: seq<Event>, j: nat, k: nat)
    requires Repeats(ws, es, j, k)
    ensures var slot := Slot(es[j].input.operator, es[j].input.key);
      var s := Started(ws[j].lease, es[j].input, es[j].now, es[j].id).1.value.session;
      var r := Started(ws[k].lease, es[k].input, es[k].now, es[k].id).1;
      && slot in ws[j + 1].lease.records
      && (es[k].now - ws[j + 1].lease.records[slot].created <= RECORD_LIFE <==>
          r.Ok? && !r.value.isNew && Continues(s, r.value.session)
          && ws[k + 1] == ws[k].(lease := Cleaned(ws[k].lease, es[k].now), clock := es[k].now))
      && (es[k].now - ws[j + 1].lease.records[slot].created > RECORD_LIFE ==>
          r.Err? || r.value == Start(NewSession(es[k].input, es[k].now, es[k].id), true))
  {
    RepeatedRecord(ws, es, j, k);
    if es[k].now - ws[j + 1].lease.records[Slot(es[j].input.operator, es[j].input.key)].created <= RECORD_LIFE {
      ReplayInTime(ws, es, j, k);
    } else {
      ReplayTooLate(ws, es, j, k);
    }
  }

  lemma ReplayInTime(ws: seq<World>, es: seq<Event>, j: nat, k: nat)
    requires Repeats(ws, es, j, k)
    requires var slot := Slot(es[j].input.operator, es[j].input.key);
      slot in ws[j + 1].lease.records && es[k].now - ws[j + 1].lease.records[slot].created <= RECORD_LIFE
    ensures var s := Started(ws[j].lease, es[j].input, es[j].now, es[j].id).1.value.session;
      var r := Started(ws[k].lease, es[k].input, es[k].now, es[k].id).1;
      && r.Ok? && !r.value.isNew && Continues(s, r.value.session)
      && ws[k + 1] == ws[k].(lease := Cleaned(ws[k].lease, es[k].now), clock := es[k].now)
  {
    RepeatedRecord(ws, es, j, k);
    assert Enabled(ws[k], es[k]) && ws[k + 1] == Apply(ws[k], es[k]);
    RecordStays(ws, es, j + 1, k, Slot(es[j].input.operator, es[j].input.key));
    RunInv(ws, es, k);
  }

  lemma ReplayTooLate(ws: seq<World>, es: seq<Event>, j: nat, k: nat)
    requires Repeats(ws, es, j, k)
    requires var slot := Slot(es[j].input.operator, es[j].input.key);
      slot in ws[j + 1].lease.records && es[k].now - ws[j + 1].lease.records[slot].created > RECORD_LIFE
    ensures var r := Started(ws[k].lease, es[k].input, es[k].now, es[k].id).1;
      r.Err? || r.value == Start(NewSession(es[k].input, es[k].now, es[k].id), true)
  {
    var slot := Slot(es[j].input.operator, es[j].input.key);
    RepeatedRecord(ws, es, j, k);
    DeadAfterADay(ws, es, j + 1, k, slot, es[k].now);
    if slot in ws[k].lease.records && ws[k].lease.records[slot].session == ws[j + 1].lease.records[slot].session {
      OneRecord(ws, es, j + 1, k, slot);
    }
    var c := Cleaned(ws[k].lease, es[k].now);
    assert slot in c.records ==> c.records[slot].session != ws[k].lease.sessions[es[k].input.customer].id;
    assert es[k].input.customer in c.sessions ==> !Live(c.sessions[es[k].input.customer], es[k].now);
  }

  /** A day after a start its record is swept, while its session stays in the table for another quarter of an hour: the
      same start then begins a new session. */
  lemma ReplayAfterADay(i: StartInput)
    requires i.key != ""
    ensures var w := World(Lease("", 1, map[], map[], map[]), 0, {}, []);
      var first, again := StartCall(i, 0, "a"), StartCall(i, RECORD_LIFE + 1, "b");
      var v := Apply(w, first);
      && Run([w, v, Apply(v, again)], [first, again]) && Repeats([w, v, Apply(v, again)], [first, again], 0, 1)
      && Started(v.lease, i, RECORD_LIFE + 1, "b").1 == Ok(Start(NewSession(i, RECORD_LIFE + 1, "b"), true))
  {
    var w := World(Lease("", 1, map[], map[], map[]), 0, {}, []);
    var first, again := StartCall(i, 0, "a"), StartCall(i, RECORD_LIFE + 1, "b");
    var v := Apply(w, first);
    NothingLive(w.lease.sessions, 0);
    assert v.lease == Lease("", 2, map[i.customer := NewSession(i, 0, "a")],
                            map[Slot(i.operator, i.key) := Record(i.customer, "a", SESSION_LIFE, 0)], map[]);
    NothingLive(Cleaned(v.lease, RECORD_LIFE + 1).sessions, RECORD_LIFE + 1);
    var ws, es := [w, v, Apply(v, again)], [first, again];
    assert Enabled(ws[0], es[0]) && ws[1] == Apply(ws[0], es[0]);
    assert Enabled(ws[1], es[1]) && ws[2] == Apply(ws[1], es[1]);
  }

  lemma NothingLive(sessions: map<string, Session>, now: Time)
    requires forall c :: c in sessions ==> !Live(sessions[c], now)
    ensures |LiveCustomers(sessions, now)| == 0
  {
    assert LiveCustomers(sessions, now) == {};
  }

}
