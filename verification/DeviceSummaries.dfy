/** Write-behind of per-user online counts. A change of a user's devices is either written to the
    database at once, or, when the user was written too recently, put on the pending queue. A second
    queue holds the moment the first of the written observations lapses. */
module DeviceSummaries {
  import opened Collections
  import opened DeviceStore
  import opened Ordering
  import DueQueue

  /** One row written to the database. */
  datatype Summary = Summary(user: User, count: nat, at: nat)

  datatype Ledger = Ledger(
    throttle: map<User, int>,  // write reservations, each with its expiry
    pending: map<User, int>,
    expiry: map<User, int>,
    counts: map<User, nat>,    // the counts in the database
    log: seq<Summary>)         // every row ever written, oldest first

  datatype System = System(store: Store, seen: Seen, ledger: Ledger)

  predicate ValidDelay(delay: nat) {
    10 <= delay <= 60_000
  }

  /** The first millisecond at which an observation is no longer live. */
  function LapseAt(time: int): int {
    (time + ONLINE_WINDOW) * 1000
  }

  lemma LapseIsExact(time: int, clock: nat)
    ensures LapseAt(time) == (time + 300) * 1000 && (Live(time, clock) <==> clock < (time + 300) * 1000)
  {
  }

  ghost function Least(times: set<int>): (t: int)
    ensures times != {} ==> t in times && forall x :: x in times ==> t <= x
  {
    if times == {} then 0
    else
      var x := Pick(times);
      var m := Least(times - {x});
      assert forall y :: y in times ==> y == x || y in times - {x};
      if times - {x} == {} || x < m then x else m
  }

  function Times(s: Store, u: User): set<int> {
    set f | f in LiveFields(s, u) :: LiveFields(s, u)[f]
  }

  function CountOf(l: Ledger, u: User): nat {
    if u in l.counts then l.counts[u] else 0
  }

  /** The users to notify, split by whether their reservation is free. */
  datatype Batch = Batch(order: seq<User>, now: seq<User>, deferred: seq<User>)

  predicate Distinct(order: seq<User>) {
    forall i, j :: 0 <= i < j < |order| ==> order[i] != order[j]
  }

  ghost predicate Splits(l: Ledger, b: Batch) {
    && Distinct(b.now)
    && (forall u :: u in b.now <==> u in b.order && u !in l.throttle)
    && (forall u :: u in b.deferred <==> u in b.order && u in l.throttle)
  }

  function CleanupAll(s: Store, users: seq<User>): Store
    decreases |users|
  {
    if users == [] then s else CleanupAll(Cleanup(s, users[0]), users[1..])
  }

  ghost function Rows(s: Store, users: seq<User>): (rows: seq<Summary>)
    ensures |rows| == |users|
    ensures forall i :: 0 <= i < |rows| ==> rows[i].user == users[i] && rows[i].at == s.clock
  {
    seq(|users|, i requires 0 <= i < |users| => Summary(users[i], |LiveIPs(s, users[i])|, s.clock))
  }

  /** When the first live observation of a user lapses. */
  ghost function NextLapse(s: Store, u: User): int {
    LapseAt(Least(Times(s, u)))
  }

  /** ZADD, or SET, of one value for several users. */
  function Stamp(queue: map<User, int>, users: set<User>, due: int): map<User, int> {
    map u | u in queue.Keys + users :: if u in users then due else queue[u]
  }

  ghost function Expiries(s: Store, users: seq<User>): map<User, int> {
    map u | u in users && LiveFields(s, u) != map[] :: NextLapse(s, u)
  }

  ghost function Counts(s: Store, users: seq<User>): map<User, nat> {
    map u | u in users :: |LiveIPs(s, u)|
  }

  /** Notifying users: deferred ones are queued, the others listed, written and given an expiry entry. */
  ghost function Notify(y: System, b: Batch, delay: nat): System {
    System(CleanupAll(y.store, b.now), y.seen, Booked(y.ledger, y.store, b, delay))
  }

  ghost function Booked(l: Ledger, s: Store, b: Batch, delay: nat): Ledger {
    Ledger(Stamp(l.throttle, AsSet(b.now), s.clock + delay),
           Stamp(l.pending, AsSet(b.deferred), s.clock + delay),
           (l.expiry - AsSet(b.now)) + Expiries(s, b.now),
           l.counts + Counts(s, b.now),
           l.log + Rows(s, b.now))
  }

  /** The database is right about a user, or some queue will bring the user up in time. */
  ghost predicate Covered(y: System, u: User) {
    var l := y.ledger;
    || u in l.pending
    || (u in l.expiry && l.expiry[u] <= y.store.clock)
    || (u !in l.expiry && LiveFields(y.store, u) == map[] && CountOf(l, u) == 0)
    || (u in l.expiry && CountOf(l, u) == |LiveIPs(y.store, u)|
        && forall f :: f in LiveFields(y.store, u) ==> l.expiry[u] <= LapseAt(LiveFields(y.store, u)[f]))
  }

  ghost predicate CoveredAll(y: System) {
    forall u :: Covered(y, u)
  }

  lemma {:induction false} CleanupAllAgrees(s: Store, seen: Seen, users: seq<User>)
    requires Agrees(s, seen)
    ensures Agrees(CleanupAll(s, users), seen)
    ensures forall v :: LiveFields(CleanupAll(s, users), v) == LiveFields(s, v)
    ensures CleanupAll(s, users).clock == s.clock
    decreases |users|
  {
    if users != [] {
      CleanupAgrees(s, seen, users[0]);
      CleanupAllAgrees(Cleanup(s, users[0]), seen, users[1..]);
    }
  }

  /** Notifying everybody whose devices changed leaves every user covered. */
  lemma NotifyCovers(y: System, b: Batch, delay: nat)
    requires Agrees(y.store, y.seen) && Splits(y.ledger, b)
    requires forall u :: u !in b.order ==> Covered(y, u)
    ensures Agrees(Notify(y, b, delay).store, y.seen)
    ensures Notify(y, b, delay).store.clock == y.store.clock
    ensures CoveredAll(Notify(y, b, delay))
  {
    var z := Notify(y, b, delay);
    CleanupAllAgrees(y.store, y.seen, b.now);
    forall u ensures Covered(z, u) {
      assert LiveFields(z.store, u) == LiveFields(y.store, u);
      if u !in b.order {
        assert Covered(y, u);
      } else if u !in y.ledger.throttle {
        assert u in z.ledger.counts && CountOf(z.ledger, u) == |LiveIPs(y.store, u)|;
        if LiveFields(y.store, u) == map[] {
          assert LiveIPs(y.store, u) == {};
        } else {
          NextLapseIsFirst(y.store, u);
        }
      }
    }
  }

  lemma NextLapseIsFirst(s: Store, u: User)
    requires LiveFields(s, u) != map[]
    ensures s.clock < NextLapse(s, u)
    ensures forall f :: f in LiveFields(s, u) ==> NextLapse(s, u) <= LapseAt(LiveFields(s, u)[f])
  {
    var live := LiveFields(s, u);
    assert live.Keys != {} by { assert live.Keys == {} ==> live == map[]; }
    var f := Pick(live.Keys);
    assert live[f] in Times(s, u);
    forall g | g in live ensures NextLapse(s, u) <= LapseAt(live[g]) {
      assert live[g] in Times(s, u);
    }
    var g :| g in live && live[g] == Least(Times(s, u));
    LapseIsExact(live[g], s.clock);
  }

  // Spacing of the writes.

  /** Rows of one user are at least `delay` apart, and a recent row still holds its reservation. */
  ghost predicate Spaced(l: Ledger, clock: nat, delay: nat) {
    && (forall i, j :: 0 <= i < j < |l.log| && l.log[i].user == l.log[j].user ==> l.log[i].at + delay <= l.log[j].at)
    && (forall i :: 0 <= i < |l.log| ==> l.log[i].at <= clock)
    && (forall i :: 0 <= i < |l.log| && clock < l.log[i].at + delay ==>
      l.log[i].user in l.throttle && l.throttle[l.log[i].user] >= l.log[i].at + delay)
  }

  lemma AppendSpaced(l: Ledger, m: Ledger, rows: seq<Summary>, clock: nat, delay: nat)
    requires Spaced(l, clock, delay) && m.log == l.log + rows
    requires forall i :: 0 <= i < |rows| ==> rows[i].at == clock && rows[i].user !in l.throttle
    requires forall i, j :: 0 <= i < j < |rows| ==> rows[i].user != rows[j].user
    requires forall i :: 0 <= i < |rows| ==> rows[i].user in m.throttle && m.throttle[rows[i].user] == clock + delay
    requires forall u :: u in l.throttle ==> u in m.throttle && m.throttle[u] == l.throttle[u]
    ensures Spaced(m, clock, delay)
  {
    var n := |l.log|;
    forall i, j | n <= i < j < |m.log| ensures m.log[i].user != m.log[j].user {
      assert m.log[i] == rows[i - n] && m.log[j] == rows[j - n];
    }
    forall i, j | 0 <= i < j < |m.log| && i < n && m.log[i].user == m.log[j].user
      ensures m.log[i].at + delay <= m.log[j].at
    {
      if n <= j {
        assert rows[j - n].user !in l.throttle;
        assert m.log[i] == l.log[i];
      } else {
        assert m.log[i] == l.log[i] && m.log[j] == l.log[j];
      }
    }
    forall i | 0 <= i < |m.log|
      ensures m.log[i].at <= clock
      ensures clock < m.log[i].at + delay ==>
        m.log[i].user in m.throttle && m.throttle[m.log[i].user] >= m.log[i].at + delay
    {
      assert m.log[i] == if i < n then l.log[i] else rows[i - n];
    }
  }

  lemma NotifySpaced(y: System, b: Batch, delay: nat)
    requires Spaced(y.ledger, y.store.clock, delay) && Splits(y.ledger, b)
    ensures Spaced(Notify(y, b, delay).ledger, y.store.clock, delay)
  {
    var m := Notify(y, b, delay).ledger;
    forall i | 0 <= i < |b.now|
      ensures b.now[i] !in y.ledger.throttle && b.now[i] in m.throttle && m.throttle[b.now[i]] == y.store.clock + delay
    {
      assert b.now[i] in b.now;
    }
    forall u | u in y.ledger.throttle ensures u in m.throttle && m.throttle[u] == y.ledger.throttle[u] {
      assert u !in b.now;
    }
    AppendSpaced(y.ledger, m, Rows(y.store, b.now), y.store.clock, delay);
  }

  // Flushing.

  predicate FlaggedPending(due: seq<DueQueue.Due>, u: User) {
    exists i :: 0 <= i < |due| && due[i].user == u && due[i].pending
  }

  predicate FlaggedExpiry(due: seq<DueQueue.Due>, u: User) {
    exists i :: 0 <= i < |due| && due[i].user == u && due[i].expiry
  }

  function DueUsers(due: seq<DueQueue.Due>): set<User> {
    set i | 0 <= i < |due| :: due[i].user
  }

  predicate Flagged(due: seq<DueQueue.Due>, u: User, pending: bool) {
    if pending then FlaggedPending(due, u) else FlaggedExpiry(due, u)
  }

  /** The removal script for every listed entry: an entry that has moved past the flush time stays. */
  function Kept(q: map<User, int>, due: seq<DueQueue.Due>, clock: int, pending: bool): map<User, int> {
    map u | u in q && !(Flagged(due, u, pending) && q[u] <= clock) :: q[u]
  }

  /** After the notification, the listed entries are removed unless they have moved past the flush time. */
  ghost function Flush(y: System, due: seq<DueQueue.Due>, b: Batch, delay: nat): System {
    var z := Notify(y, b, delay);
    var l := z.ledger;
    z.(ledger := l.(
         pending := Kept(l.pending, due, y.store.clock, true), expiry := Kept(l.expiry, due, y.store.clock, false)))
  }

  ghost predicate CanFlush(y: System, limit: nat, due: seq<DueQueue.Due>, b: Batch) {
    && DueQueue.Selects(y.ledger.pending, y.ledger.expiry, y.store.clock, limit, due)
    && Enumerates(b.order, DueUsers(due)) && Splits(y.ledger, b)
  }

  lemma FlushCoversOne(y: System, due: seq<DueQueue.Due>, b: Batch, delay: nat, u: User)
    requires ValidDelay(delay) && Splits(y.ledger, b) && Covered(Notify(y, b, delay), u)
    requires LiveFields(Notify(y, b, delay).store, u) == LiveFields(y.store, u)
    requires Notify(y, b, delay).store.clock == y.store.clock
    requires FlaggedPending(due, u) || FlaggedExpiry(due, u) ==> u in b.order
    ensures Covered(Flush(y, due, b, delay), u)
  {
    var z := Notify(y, b, delay);
    if u in b.order && u !in y.ledger.throttle {
      if LiveFields(y.store, u) != map[] {
        NextLapseIsFirst(y.store, u);
        assert z.ledger.expiry[u] == NextLapse(y.store, u);
      } else {
        assert LiveIPs(y.store, u) == {} && u !in z.ledger.expiry;
      }
      assert CountOf(z.ledger, u) == |LiveIPs(y.store, u)|;
    } else if u in b.order {
      assert u in z.ledger.pending && z.ledger.pending[u] == y.store.clock + delay;
    }
  }

  /** Removing an acknowledged entry never uncovers its user. */
  lemma FlushCovers(y: System, limit: nat, due: seq<DueQueue.Due>, b: Batch, delay: nat)
    requires Agrees(y.store, y.seen) && CoveredAll(y) && CanFlush(y, limit, due, b) && ValidDelay(delay)
    ensures Agrees(Flush(y, due, b, delay).store, y.seen)
    ensures CoveredAll(Flush(y, due, b, delay))
  {
    NotifyCovers(y, b, delay);
    CleanupAllAgrees(y.store, y.seen, b.now);
    forall u | FlaggedPending(due, u) || FlaggedExpiry(due, u) ensures u in b.order {
      assert u in DueUsers(due);
      assert u in (set v | v in b.order);
    }
    forall u ensures Covered(Flush(y, due, b, delay), u) {
      FlushCoversOne(y, due, b, delay, u);
    }
  }

  function DueIn(q: map<User, int>, clock: int): set<User> {
    set u | u in q && q[u] <= clock
  }

  function DueEntries(l: Ledger, clock: int): nat {
    |DueIn(l.pending, clock)| + |DueIn(l.expiry, clock)|
  }

  /** The due members of a queue that the flush was given. */
  function FlaggedIn(q: map<User, int>, clock: int, due: seq<DueQueue.Due>, pending: bool): set<User> {
    set u | u in DueIn(q, clock) && Flagged(due, u, pending)
  }

  /** A flush makes nothing due, and takes away every entry it was given. */
  lemma FlushOnlyRemoves(y: System, limit: nat, due: seq<DueQueue.Due>, b: Batch, delay: nat)
    requires CanFlush(y, limit, due, b) && ValidDelay(delay)
    ensures var l := y.ledger; var m := Flush(y, due, b, delay).ledger; var t := y.store.clock;
      && DueIn(m.pending, t) <= DueIn(l.pending, t) - FlaggedIn(l.pending, t, due, true)
      && DueIn(m.expiry, t) <= DueIn(l.expiry, t) - FlaggedIn(l.expiry, t, due, false)
  {
    var z := Notify(y, b, delay);
    forall u | u in b.order && u !in y.ledger.throttle && LiveFields(y.store, u) != map[]
      ensures u in z.ledger.expiry && y.store.clock < z.ledger.expiry[u]
    {
      NextLapseIsFirst(y.store, u);
    }
  }

  lemma {:induction false} DueUsersSize(due: seq<DueQueue.Due>)
    requires forall i, j :: 0 <= i < j < |due| ==> due[i].user != due[j].user
    ensures |DueUsers(due)| == |due|
  {
    if due != [] {
      var n := |due| - 1;
      DueUsersSize(due[..n]);
      assert DueUsers(due) == DueUsers(due[..n]) + {due[n].user};
    }
  }

  lemma UnionSize(a: set<User>, b: set<User>, all: set<User>)
    requires all <= a + b
    ensures |all| <= |a| + |b|
  {
    assert all == (all * a) + (all - a);
    SubsetSize(all * a, a);
    SubsetSize(all - a, b);
  }

  lemma RemovedSize(whole: set<User>, gone: set<User>, left: set<User>)
    requires gone <= whole && left <= whole - gone
    ensures |left| + |gone| <= |whole|
  {
    SubsetSize(left + gone, whole);
    assert left * gone == {};
  }

  lemma FlagsCount(l: Ledger, t: int, limit: nat, due: seq<DueQueue.Due>)
    requires DueQueue.Selects(l.pending, l.expiry, t, limit, due)
    ensures |due| <= |FlaggedIn(l.pending, t, due, true)| + |FlaggedIn(l.expiry, t, due, false)|
  {
    var a, b := FlaggedIn(l.pending, t, due, true), FlaggedIn(l.expiry, t, due, false);
    forall u | u in DueUsers(due) ensures u in a + b {
      DueIsFlagged(l, t, limit, due, u);
    }
    DueUsersSize(due);
    UnionSize(a, b, DueUsers(due));
  }

  lemma DueIsFlagged(l: Ledger, t: int, limit: nat, due: seq<DueQueue.Due>, u: User)
    requires DueQueue.Selects(l.pending, l.expiry, t, limit, due) && u in DueUsers(due)
    ensures u in FlaggedIn(l.pending, t, due, true) || u in FlaggedIn(l.expiry, t, due, false)
  {
    var i :| 0 <= i < |due| && due[i].user == u;
    assert DueQueue.Marked(l.pending, l.expiry, t, due[i]);
    assert due[i].pending ==> FlaggedPending(due, u);
    assert due[i].expiry ==> FlaggedExpiry(due, u);
  }

  /** A flush removes at least one due entry for every user it returns, and returns no user only when
      nothing is due. */
  lemma FlushProgress(y: System, limit: nat, due: seq<DueQueue.Due>, b: Batch, delay: nat)
    requires CanFlush(y, limit, due, b) && ValidDelay(delay) && limit >= 1
    ensures DueEntries(Flush(y, due, b, delay).ledger, y.store.clock) + |due| <= DueEntries(y.ledger, y.store.clock)
    ensures due == [] <==> DueEntries(y.ledger, y.store.clock) == 0
  {
    FlushOnlyRemoves(y, limit, due, b, delay);
    FlagsCount(y.ledger, y.store.clock, limit, due);
    var l, m, t := y.ledger, Flush(y, due, b, delay).ledger, y.store.clock;
    RemovedSize(DueIn(l.pending, t), FlaggedIn(l.pending, t, due, true), DueIn(m.pending, t));
    RemovedSize(DueIn(l.expiry, t), FlaggedIn(l.expiry, t, due, false), DueIn(m.expiry, t));
    if due == [] {
      forall u ensures u !in DueIn(l.pending, t) && u !in DueIn(l.expiry, t) {
        assert !DueQueue.Lists(due, u);
        assert !DueQueue.IsDue(l.pending, t, u) && !DueQueue.IsDue(l.expiry, t, u);
      }
      assert DueIn(l.pending, t) == {} && DueIn(l.expiry, t) == {};
    }
  }

  /** Flushing again and again at one moment ends: there are no more flushes that return somebody
      than there were due entries. */
  lemma {:induction false} FlushingEnds(ys: seq<System>, dues: seq<seq<DueQueue.Due>>, batches: seq<Batch>, limit: nat,
                                        delay: nat)
    requires ValidDelay(delay) && limit >= 1 && |ys| == |dues| + 1 && |batches| == |dues|
    requires forall k :: 0 <= k < |dues| ==>
      && dues[k] != [] && CanFlush(ys[k], limit, dues[k], batches[k])
      && ys[k + 1] == Flush(ys[k], dues[k], batches[k], delay)
    ensures |dues| <= DueEntries(ys[0].ledger, ys[0].store.clock)
    decreases |dues|
  {
    if dues != [] {
      FlushProgress(ys[0], limit, dues[0], batches[0], delay);
      FlushKeepsClock(ys[0].store, batches[0].now);
      FlushingEnds(ys[1..], dues[1..], batches[1..], limit, delay);
    }
  }

  lemma {:induction false} FlushKeepsClock(s: Store, users: seq<User>)
    ensures CleanupAll(s, users).clock == s.clock
    decreases |users|
  {
    if users != [] {
      FlushKeepsClock(Cleanup(s, users[0]), users[1..]);
    }
  }

  // Whole runs.

  datatype Event =
    | Wait(clock: nat)
    | LoseDeviceKey(lapse: Lapse)
    | LoseReservation(user: User)
    | ReplaceNode(node: Node, snapshot: map<User, set<IP>>, replaceAll: bool, batch: Batch)
    | ClearUsers(batch: Batch)
    | ClearNodes(plan: seq<(Node, seq<User>)>, batch: Batch)
    | ListUsers(users: seq<User>)
    | FlushPending(limit: nat, due: seq<DueQueue.Due>, batch: Batch)

  function ReplaceUsers(s: Store, n: Node, snapshot: map<User, set<IP>>, order: seq<User>): Store
    decreases |order|
  {
    if order == [] then s
    else ReplaceUsers(ReplaceUser(s, n, order[0], Asked(snapshot, order[0]), Unix(s.clock)), n, snapshot, order[1..])
  }

  function Asked(snapshot: map<User, set<IP>>, u: User): set<IP> {
    if u in snapshot then snapshot[u] else {}
  }

  function RecordAll(seen: Seen, n: Node, snapshot: map<User, set<IP>>, order: seq<User>, time: int): Seen
    decreases |order|
  {
    if order == [] then seen
    else RecordAll(Record(seen, n, order[0], Asked(snapshot, order[0]), time), n, snapshot, order[1..], time)
  }

  function ClearUsersStore(s: Store, order: seq<User>): Store
    decreases |order|
  {
    if order == [] then s else ClearUsersStore(ClearUser(s, order[0]), order[1..])
  }

  function ForgetUsers(seen: Seen, order: seq<User>): Seen
    decreases |order|
  {
    if order == [] then seen else ForgetUsers(ForgetUser(seen, order[0]), order[1..])
  }

  function ClearNodesStore(s: Store, plan: seq<(Node, seq<User>)>): Store
    decreases |plan|
  {
    if plan == [] then s else ClearNodesStore(ClearNode(s, plan[0].0, plan[0].1), plan[1..])
  }

  function ForgetNodes(seen: Seen, plan: seq<(Node, seq<User>)>): Seen
    decreases |plan|
  {
    if plan == [] then seen else ForgetNodes(ForgetNode(seen, plan[0].0), plan[1..])
  }

  function WithReport(y: System, n: Node, snapshot: map<User, set<IP>>, order: seq<User>): System {
    y.(store := ReplaceUsers(Bump(y.store, n), n, snapshot, order),
       seen := RecordAll(y.seen, n, snapshot, order, Unix(y.store.clock)))
  }

  function WithoutUsers(y: System, order: seq<User>): System {
    y.(store := ClearUsersStore(y.store, order), seen := ForgetUsers(y.seen, order))
  }

  function WithoutNodes(y: System, plan: seq<(Node, seq<User>)>): System {
    y.(store := ClearNodesStore(y.store, plan), seen := ForgetNodes(y.seen, plan))
  }

  /** Each node is cleared through the index as it stands when its turn comes. */
  predicate ScansFit(s: Store, plan: seq<(Node, seq<User>)>)
    decreases |plan|
  {
    plan != [] ==>
      Enumerates(plan[0].1, NodeUsers(s, plan[0].0)) && ScansFit(ClearNode(s, plan[0].0, plan[0].1), plan[1..])
  }

  /** The users for whom a clearing script removed something. */
  function Stripped(s: Store, n: Node, users: seq<User>): set<User> {
    set u | u in users && FieldsOf(s, u, n) * Hash(s, u).Keys != {}
  }

  function StrippedAll(s: Store, plan: seq<(Node, seq<User>)>): set<User>
    decreases |plan|
  {
    if plan == [] then {}
    else Stripped(s, plan[0].0, plan[0].1) + StrippedAll(ClearNode(s, plan[0].0, plan[0].1), plan[1..])
  }

  ghost predicate Possible(y: System, e: Event) {
    match e
    case Wait(clock) => y.store.clock <= clock
    case LoseDeviceKey(l) => CanLapse(y.store, l)
    case LoseReservation(u) => u in y.ledger.throttle && y.ledger.throttle[u] <= y.store.clock
    case ReplaceNode(n, snapshot, replaceAll, b) =>
      Enumerates(b.order, snapshot.Keys + (if replaceAll then NodeUsers(y.store, n) else {})) && Splits(y.ledger, b)
    case ClearUsers(b) => Enumerates(b.order, AsSet(b.order)) && Splits(y.ledger, b)
    case ClearNodes(plan, b) =>
      ScansFit(y.store, plan) && Enumerates(b.order, StrippedAll(y.store, plan)) && Splits(y.ledger, b)
    case ListUsers(_) => true
    case FlushPending(limit, due, b) => limit >= 1 && CanFlush(y, limit, due, b)
  }

  /** Every operation that returns no error, as one step. */
  ghost function After(y: System, e: Event, delay: nat): System {
    match e
    case Wait(clock) => y.(store := y.store.(clock := clock))
    case LoseDeviceKey(l) => y.(store := Drop(y.store, l))
    case LoseReservation(u) => y.(ledger := y.ledger.(throttle := y.ledger.throttle - {u}))
    case ReplaceNode(n, snapshot, _, b) =>
      Notify(WithReport(y, n, snapshot, b.order), b, delay)
    case ClearUsers(b) => Notify(WithoutUsers(y, b.order), b, delay)
    case ClearNodes(plan, b) => Notify(WithoutNodes(y, plan), b, delay)
    case ListUsers(users) => y.(store := CleanupAll(y.store, users))
    case FlushPending(_, due, b) => Flush(y, due, b, delay)
  }

  /** The users outside `touched` have the devices they had. */
  ghost predicate SameOutside(s: Store, t: Store, touched: set<User>) {
    t.clock == s.clock && forall u :: u !in touched ==> LiveFields(t, u) == LiveFields(s, u)
  }

  lemma {:induction false} ReplaceUsersAgrees(s: Store, seen: Seen, n: Node, snapshot: map<User, set<IP>>,
                                              order: seq<User>)
    requires Agrees(s, seen)
    ensures Agrees(ReplaceUsers(s, n, snapshot, order), RecordAll(seen, n, snapshot, order, Unix(s.clock)))
    ensures SameOutside(s, ReplaceUsers(s, n, snapshot, order), AsSet(order))
    decreases |order|
  {
    if order != [] {
      var ips := Asked(snapshot, order[0]);
      var t := ReplaceUser(s, n, order[0], ips, Unix(s.clock));
      ReplaceUserAgrees(s, seen, n, order[0], ips, Unix(s.clock));
      forall u | u != order[0] ensures LiveFields(t, u) == LiveFields(s, u) {
        ReplaceElsewhere(s, n, order[0], ips, Unix(s.clock), u);
      }
      ReplaceUsersAgrees(t, Record(seen, n, order[0], ips, Unix(s.clock)), n, snapshot, order[1..]);
    }
  }

  /** The scripts of a whole report leave exactly what it asks for, live or not, for a user if and only if the field
      index covered the user's other fields of the node or, for a user it does not visit, it was so before. */
  lemma {:induction false} ScriptsAreExactIff(s: Store, n: Node, snapshot: map<User, set<IP>>, order: seq<User>,
                                              v: User)
    requires Distinct(order)
    ensures Exactly(Hash(ReplaceUsers(s, n, snapshot, order), v), n, Asked(snapshot, v)) <==>
      if v in order then Indexed(s, n, v, Asked(snapshot, v)) else Exactly(Hash(s, v), n, Asked(snapshot, v))
    decreases |order|
  {
    if order != [] {
      var u, ips := order[0], Asked(snapshot, order[0]);
      var t := ReplaceUser(s, n, u, ips, Unix(s.clock));
      assert v in order <==> v == u || v in order[1..];
      ScriptsAreExactIff(t, n, snapshot, order[1..], v);
      if v == u {
        ScriptIsExactIff(s, n, u, ips, Unix(s.clock));
      } else {
        ReplaceElsewhere(s, n, u, ips, Unix(s.clock), v);
      }
    }
  }

  /** The live fields of the node are what the report asks for, for every user it visits. */
  lemma {:induction false} ScriptsLiveAreExact(s: Store, seen: Seen, n: Node, snapshot: map<User, set<IP>>,
                                               order: seq<User>, v: User)
    requires Agrees(s, seen) && Distinct(order) && v in order
    ensures Exactly(LiveFields(ReplaceUsers(s, n, snapshot, order), v), n, Asked(snapshot, v))
    decreases |order|
  {
    var u, ips := order[0], Asked(snapshot, order[0]);
    var t, after := ReplaceUser(s, n, u, ips, Unix(s.clock)), Record(seen, n, u, ips, Unix(s.clock));
    ReplaceUserAgrees(s, seen, n, u, ips, Unix(s.clock));
    if v == u {
      ScriptLiveIsExact(s, seen, n, u, ips);
      ReplaceUsersAgrees(t, after, n, snapshot, order[1..]);
    } else {
      ScriptsLiveAreExact(t, after, n, snapshot, order[1..], v);
    }
  }

  /** A listing leaves a user nothing but live fields, and other users what they had. */
  lemma {:induction false} CleanupAllHash(s: Store, users: seq<User>, v: User)
    ensures Hash(CleanupAll(s, users), v) == if v in users then LiveFields(s, v) else Hash(s, v)
    decreases |users|
  {
    if users != [] {
      var t := Cleanup(s, users[0]);
      CleanupHash(s, users[0], v);
      CleanupAllHash(t, users[1..], v);
      assert v in users <==> v == users[0] || v in users[1..];
      assert Hash(t, users[0]) == LiveFields(s, users[0]) by { CleanupHash(s, users[0], users[0]); }
    }
  }

  /** A report, from its bump to the end of its notification, leaves exactly what it asks for, live or not, for a user
      if and only if the user is listed at once, or is visited and had its fields of the node in the index, or is not
      visited and had exactly that before. */
  lemma ReportIsExactIff(y: System, n: Node, snapshot: map<User, set<IP>>, replaceAll: bool, b: Batch, delay: nat,
                         v: User)
    requires Agrees(y.store, y.seen) && Possible(y, ReplaceNode(n, snapshot, replaceAll, b))
    ensures Exactly(Hash(After(y, ReplaceNode(n, snapshot, replaceAll, b), delay).store, v), n, Asked(snapshot, v)) <==>
      || v in b.now
      || (if v in b.order then Indexed(y.store, n, v, Asked(snapshot, v))
        else Exactly(Hash(y.store, v), n, Asked(snapshot, v)))
  {
    assert After(y, ReplaceNode(n, snapshot, replaceAll, b), delay).store == ReportStore(y.store, n, snapshot, b);
    ReportStoreIsExactIff(y.store, y.seen, n, snapshot, b, v);
  }

  function ReportStore(s: Store, n: Node, snapshot: map<User, set<IP>>, b: Batch): Store {
    CleanupAll(ReplaceUsers(Bump(s, n), n, snapshot, b.order), b.now)
  }

  lemma ReportStoreIsExactIff(s: Store, seen: Seen, n: Node, snapshot: map<User, set<IP>>, b: Batch, v: User)
    requires Agrees(s, seen) && Distinct(b.order) && forall u :: u in b.now ==> u in b.order
    ensures Exactly(Hash(ReportStore(s, n, snapshot, b), v), n, Asked(snapshot, v)) <==>
      || v in b.now
      || (if v in b.order then Indexed(s, n, v, Asked(snapshot, v)) else Exactly(Hash(s, v), n, Asked(snapshot, v)))
  {
    var t := Bump(s, n);
    BumpAgrees(s, seen, n);
    ScriptsAreExactIff(t, n, snapshot, b.order, v);
    CleanupAllHash(ReplaceUsers(t, n, snapshot, b.order), b.now, v);
    if v in b.now {
      ScriptsLiveAreExact(t, seen, n, snapshot, b.order, v);
    }
  }

  lemma {:induction false} ClearUsersAgrees(s: Store, seen: Seen, order: seq<User>)
    requires Agrees(s, seen)
    ensures Agrees(ClearUsersStore(s, order), ForgetUsers(seen, order))
    ensures SameOutside(s, ClearUsersStore(s, order), AsSet(order))
    decreases |order|
  {
    if order != [] {
      var t := ClearUser(s, order[0]);
      ClearUserAgrees(s, seen, order[0], UserNodes(s, order[0]));
      forall u | u != order[0] ensures LiveFields(t, u) == LiveFields(s, u) {
        assert Hash(t, u) == Hash(s, u);
      }
      ClearUsersAgrees(t, ForgetUser(seen, order[0]), order[1..]);
    }
  }

  /** A clearing script that reports nothing removed has changed no hash. */
  lemma {:induction false} DropUsersHash(s: Store, n: Node, users: seq<User>, v: User)
    requires Distinct(users)
    ensures v !in Stripped(s, n, users) ==> Hash(DropUsers(s, n, users), v) == Hash(s, v)
    decreases |users|
  {
    if users != [] {
      var u := users[0];
      var t := ReplaceUser(s, n, u, {}, 0);
      DropUsersHash(t, n, users[1..], v);
      assert u !in users[1..];
      if v == u {
        assert v !in Stripped(t, n, users[1..]);
        if FieldsOf(s, u, n) * Hash(s, u).Keys == {} {
          assert forall f :: f in Hash(s, u) ==> f !in FieldsOf(s, u, n) || f in FieldsOf(s, u, n) * Hash(s, u).Keys;
          assert Hash(t, u) == Hash(s, u);
        }
      } else {
        assert Hash(t, v) == Hash(s, v) && FieldsOf(t, v, n) == FieldsOf(s, v, n);
      }
    }
  }

  lemma {:induction false} ClearNodesAgrees(s: Store, seen: Seen, plan: seq<(Node, seq<User>)>)
    requires Agrees(s, seen) && ScansFit(s, plan)
    ensures Agrees(ClearNodesStore(s, plan), ForgetNodes(seen, plan))
    ensures SameOutside(s, ClearNodesStore(s, plan), StrippedAll(s, plan))
    decreases |plan|
  {
    if plan != [] {
      var n, users := plan[0].0, plan[0].1;
      var t := ClearNode(s, n, users);
      assert forall u :: u in NodeUsers(s, n) ==> u in (set v | v in users);
      ClearNodeAgrees(s, seen, n, users);
      ClearNodeTouches(s, n, users);
      ClearNodesAgrees(t, ForgetNode(seen, n), plan[1..]);
    }
  }

  lemma ClearNodeTouches(s: Store, n: Node, users: seq<User>)
    requires Distinct(users)
    ensures SameOutside(s, ClearNode(s, n, users), Stripped(s, n, users))
  {
    DropUsersClock(Bump(s, n), n, users);
    assert Stripped(Bump(s, n), n, users) == Stripped(s, n, users);
    forall u | u !in Stripped(s, n, users) ensures LiveFields(ClearNode(s, n, users), u) == LiveFields(s, u) {
      DropUsersHash(Bump(s, n), n, users, u);
      assert Hash(ClearNode(s, n, users), u) == Hash(s, u);
    }
  }

  /** A key that may lapse holds no live observation. */
  lemma LapseKeepsLive(s: Store, seen: Seen, l: Lapse)
    requires Agrees(s, seen) && CanLapse(s, l)
    ensures SameOutside(s, Drop(s, l), {})
  {
    forall u ensures LiveFields(Drop(s, l), u) == LiveFields(s, u) {
      forall f | f in LiveFields(s, u) ensures l != Devices(u) {
        assert (f.node, u) in seen && Held(s, f.node, u, seen[(f.node, u)]);
      }
    }
  }

  lemma SameIsCovered(y: System, z: System, u: User)
    requires Covered(y, u) && z.ledger == y.ledger && z.store.clock == y.store.clock
    requires LiveFields(z.store, u) == LiveFields(y.store, u)
    ensures Covered(z, u)
  {
  }

  lemma WaitCovers(y: System, clock: nat, u: User)
    requires Covered(y, u) && y.store.clock <= clock
    ensures Covered(y.(store := y.store.(clock := clock)), u)
  {
    var z := y.(store := y.store.(clock := clock));
    forall f | f in Hash(y.store, u) && u in y.ledger.expiry && clock < y.ledger.expiry[u]
        && (f in LiveFields(y.store, u) ==> y.ledger.expiry[u] <= LapseAt(LiveFields(y.store, u)[f]))
      ensures f in LiveFields(z.store, u) <==> f in LiveFields(y.store, u)
    {
      LapseIsExact(Hash(y.store, u)[f], clock);
    }
    if u in y.ledger.expiry && clock < y.ledger.expiry[u] && u !in y.ledger.pending {
      assert LiveFields(z.store, u) == LiveFields(y.store, u);
    } else {
      assert forall f :: f in LiveFields(z.store, u) ==> f in LiveFields(y.store, u);
    }
  }

  ghost predicate Good(y: System, delay: nat) {
    Agrees(y.store, y.seen) && CoveredAll(y) && Spaced(y.ledger, y.store.clock, delay)
  }

  /** A change of the store followed by a notification of everybody it touched. */
  lemma ChangeThenNotify(y: System, z: System, b: Batch, delay: nat)
    requires Good(y, delay) && z.ledger == y.ledger && Agrees(z.store, z.seen) && Splits(y.ledger, b)
    requires SameOutside(y.store, z.store, AsSet(b.order))
    ensures Good(Notify(z, b, delay), delay)
  {
    forall u | u !in b.order ensures Covered(z, u) {
      assert Covered(y, u);
      SameIsCovered(y, z, u);
    }
    NotifyCovers(z, b, delay);
    NotifySpaced(z, b, delay);
  }

  lemma ReplaceNodeGood(y: System, n: Node, snapshot: map<User, set<IP>>, b: Batch, delay: nat)
    requires Good(y, delay) && Splits(y.ledger, b)
    ensures Good(Notify(WithReport(y, n, snapshot, b.order), b, delay), delay)
  {
    var s := Bump(y.store, n);
    BumpAgrees(y.store, y.seen, n);
    ReplaceUsersAgrees(s, y.seen, n, snapshot, b.order);
    forall u ensures LiveFields(s, u) == LiveFields(y.store, u) {
      assert Hash(s, u) == Hash(y.store, u);
    }
    ChangeThenNotify(y, WithReport(y, n, snapshot, b.order), b, delay);
  }

  lemma ClearUsersGood(y: System, b: Batch, delay: nat)
    requires Good(y, delay) && Splits(y.ledger, b)
    ensures Good(Notify(WithoutUsers(y, b.order), b, delay), delay)
  {
    ClearUsersAgrees(y.store, y.seen, b.order);
    ChangeThenNotify(y, WithoutUsers(y, b.order), b, delay);
  }

  lemma ClearNodesGood(y: System, plan: seq<(Node, seq<User>)>, b: Batch, delay: nat)
    requires Good(y, delay) && ScansFit(y.store, plan) && Splits(y.ledger, b)
    requires StrippedAll(y.store, plan) <= AsSet(b.order)
    ensures Good(Notify(WithoutNodes(y, plan), b, delay), delay)
  {
    ClearNodesAgrees(y.store, y.seen, plan);
    ChangeThenNotify(y, WithoutNodes(y, plan), b, delay);
  }

  lemma FlushGood(y: System, limit: nat, due: seq<DueQueue.Due>, b: Batch, delay: nat)
    requires ValidDelay(delay) && Good(y, delay) && CanFlush(y, limit, due, b)
    ensures Good(Flush(y, due, b, delay), delay)
  {
    FlushCovers(y, limit, due, b, delay);
    FlushKeepsClock(y.store, b.now);
    NotifySpaced(y, b, delay);
  }

  lemma EventGood(y: System, e: Event, delay: nat)
    requires ValidDelay(delay) && Good(y, delay) && Possible(y, e)
    ensures Good(After(y, e, delay), delay)
  {
    match e
    case Wait(clock) =>
      AdvanceAgrees(y.store, y.seen, clock);
      forall u ensures Covered(After(y, e, delay), u) {
        WaitCovers(y, clock, u);
      }
    case LoseDeviceKey(l) =>
      LapseAgrees(y.store, y.seen, l);
      LapseKeepsLive(y.store, y.seen, l);
      forall u ensures Covered(After(y, e, delay), u) {
        SameIsCovered(y, After(y, e, delay), u);
      }
    case LoseReservation(u) =>
      forall v ensures Covered(After(y, e, delay), v) {
        assert Covered(y, v);
      }
    case ReplaceNode(n, snapshot, _, b) => ReplaceNodeGood(y, n, snapshot, b, delay);
    case ClearUsers(b) => ClearUsersGood(y, b, delay);
    case ClearNodes(plan, b) => ClearNodesGood(y, plan, b, delay);
    case ListUsers(users) =>
      CleanupAllAgrees(y.store, y.seen, users);
      forall u ensures Covered(After(y, e, delay), u) {
        SameIsCovered(y, After(y, e, delay), u);
      }
    case FlushPending(limit, due, b) => FlushGood(y, limit, due, b, delay);
  }

  ghost predicate Fresh(y: System) {
    && y.seen == map[] && y.ledger == Ledger(map[], map[], map[], map[], [])
    && y.store.devices == map[] && y.store.nodeUsers == map[] && y.store.userNodes == map[] && y.store.fields == map[]
  }

  ghost predicate History(ys: seq<System>, es: seq<Event>, delay: nat) {
    && |ys| == |es| + 1 && Fresh(ys[0])
    && forall k {:trigger es[k]} :: 0 <= k < |es| ==> Possible(ys[k], es[k]) && ys[k + 1] == After(ys[k], es[k], delay)
  }

  lemma {:induction false} HistoryGood(ys: seq<System>, es: seq<Event>, delay: nat, k: nat)
    requires ValidDelay(delay) && History(ys, es, delay) && k < |ys|
    ensures Good(ys[k], delay)
  {
    if k == 0 {
      assert forall u :: LiveFields(ys[0].store, u) == map[];
    } else {
      HistoryGood(ys, es, delay, k - 1);
      EventGood(ys[k - 1], es[k - 1], delay);
    }
  }

  /** No lost summary: in every state of every history, a user that is neither pending nor due has
      exactly the count a listing would show and, if it shows anything, an expiry entry still to come and
      no later than the first moment one of the observations lapses. */
  lemma NoLostSummary(ys: seq<System>, es: seq<Event>, delay: nat, k: nat, u: User)
    requires ValidDelay(delay) && History(ys, es, delay) && k < |ys|
    ensures
      || u in ys[k].ledger.pending
      || (u in ys[k].ledger.expiry && ys[k].ledger.expiry[u] <= ys[k].store.clock)
      || (&& CountOf(ys[k].ledger, u) == |LiveIPs(ys[k].store, u)|
          && forall f :: f in LiveFields(ys[k].store, u) ==>
            && u in ys[k].ledger.expiry
            && ys[k].store.clock < ys[k].ledger.expiry[u] <= LapseAt(LiveFields(ys[k].store, u)[f]))
  {
    HistoryGood(ys, es, delay, k);
    assert Covered(ys[k], u);
  }

  /** Two database writes for one user are never closer than the throttle. */
  lemma WritesAreThrottled(ys: seq<System>, es: seq<Event>, delay: nat, k: nat, i: nat, j: nat)
    requires ValidDelay(delay) && History(ys, es, delay) && k < |ys|
    requires i < j < |ys[k].ledger.log| && ys[k].ledger.log[i].user == ys[k].ledger.log[j].user
    ensures ys[k].ledger.log[i].at + delay <= ys[k].ledger.log[j].at
  {
    HistoryGood(ys, es, delay, k);
  }
}
