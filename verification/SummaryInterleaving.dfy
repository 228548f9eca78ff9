/** The write-behind of one user's summary, command by command. Any number of calls are under way at once: reports and
    clears that change the user's devices, and flushes. Each of them reserves the user's write, and then either defers
    it or lists the devices, queues their expiry, writes the count and clears an expiry that is no longer needed; a
    flush then acknowledges what it was given. Commands of different users do not touch each other's entries, so one
    user is enough. */
module SummaryInterleaving {
  import opened Collections
  import opened DeviceStore
  import DeviceSummaries

  type Observations = map<Field, int>

  datatype Phase =
    | Owing                        // may still change devices, and has not notified
    | Refused                      // another call holds the reservation
    | Reserved                     // holds it, and has not listed
    | Listed(live: Observations)
    | Queued(live: Observations)   // has queued the expiry
    | Written(live: Observations)  // has written the count
    | Acking(holds: bool)          // a flush that has notified
    | Done

  /** A call with the time it was made for; a flush with the queues in which it found the user due. */
  datatype Call = Call(now: nat, flush: bool, pending: bool, expiry: bool, phase: Phase)

  datatype Reservation = Reservation(expires: int, holder: nat, now: nat)

  datatype World = World(
    clock: nat,
    fields: Observations,
    throttle: Option<Reservation>,
    pending: Option<int>,
    expiry: Option<int>,
    count: nat,                 // the count in the database
    calls: map<nat, Call>)

  datatype Step =
    | Advance(clock: nat)
    | LoseReservation
    | Clean(fields: Observations)
    | Begin(id: nat, now: nat)
    | BeginFlush(id: nat, now: nat, pending: bool, expiry: bool)
    | Change(id: nat, fields: Observations)
    | Reserve(id: nat)
    | Defer(id: nat)
    | List(id: nat)
    | Queue(id: nat)
    | Write(id: nat)
    | Clear(id: nat)
    | AckPending(id: nat)
    | AckExpiry(id: nat)
    | End(id: nat)

  function LiveAt(fields: Observations, clock: nat): Observations {
    map f | f in fields && Live(fields[f], clock) :: fields[f]
  }

  function Count(live: Observations): nat {
    |set f | f in live :: f.ip|
  }

  /** When the first of the observations lapses. */
  ghost function Lapse(live: Observations): int {
    DeviceSummaries.LapseAt(DeviceSummaries.Least(set f | f in live :: live[f]))
  }

  predicate DueBy(entry: Option<int>, now: nat) {
    entry.Some? && entry.value <= now
  }

  predicate In(w: World, i: nat, p: Phase) {
    i in w.calls && w.calls[i].phase == p
  }

  /** Every call is over within the throttle of the time it was made for. */
  predicate Prompt(w: World, clock: nat, delay: nat) {
    forall i :: i in w.calls && !w.calls[i].phase.Done? ==> clock < w.calls[i].now + delay
  }

  ghost predicate Possible(w: World, e: Step) {
    match e
    case Advance(clock) => w.clock <= clock
    case LoseReservation => w.throttle.Some? && w.throttle.value.expires <= w.clock
    // expired keys and cleaned-up fields: nothing live goes
    case Clean(fields) => LiveAt(fields, w.clock) == LiveAt(w.fields, w.clock)
    case Begin(i, now) => i !in w.calls && now <= w.clock
    case BeginFlush(i, now, pending, expiry) =>
      i !in w.calls && now <= w.clock && (pending ==> DueBy(w.pending, now)) && (expiry ==> DueBy(w.expiry, now))
    case Change(i, _) => In(w, i, Owing) && !w.calls[i].flush
    case Reserve(i) => In(w, i, Owing)
    case Defer(i) => In(w, i, Refused)
    case List(i) => In(w, i, Reserved)
    case Queue(i) => i in w.calls && w.calls[i].phase.Listed?
    case Write(i) => i in w.calls && w.calls[i].phase.Queued?
    case Clear(i) => i in w.calls && w.calls[i].phase.Written?
    case AckPending(i) => i in w.calls && w.calls[i].phase.Acking? && w.calls[i].pending
    case AckExpiry(i) => i in w.calls && w.calls[i].phase.Acking? && w.calls[i].expiry
    case End(i) => i in w.calls && w.calls[i].phase.Acking?
  }

  function Moved(w: World, i: nat, p: Phase): World
    requires i in w.calls
  {
    w.(calls := w.calls[i := w.calls[i].(phase := p)])
  }

  function Notified(c: Call, holds: bool): Phase {
    if c.flush then Acking(holds) else Done
  }

  function Acknowledged(entry: Option<int>, now: nat): Option<int> {
    if DueBy(entry, now) then None else entry
  }

  ghost function After(w: World, e: Step, delay: nat): World
    requires Possible(w, e)
  {
    match e
    case Advance(clock) => w.(clock := clock)
    case LoseReservation => w.(throttle := None)
    case Clean(fields) => w.(fields := fields)
    case Begin(i, now) => w.(calls := w.calls[i := Call(now, false, false, false, Owing)])
    case BeginFlush(i, now, pending, expiry) => w.(calls := w.calls[i := Call(now, true, pending, expiry, Owing)])
    case Change(_, fields) => w.(fields := fields)
    case Reserve(i) =>
      if w.throttle.Some? then Moved(w, i, Refused)
      else Moved(w.(throttle := Some(Reservation(w.clock + delay, i, w.calls[i].now))), i, Reserved)
    case Defer(i) => Moved(w.(pending := Some(w.calls[i].now + delay)), i, Notified(w.calls[i], false))
    case List(i) => Moved(w, i, Listed(LiveAt(w.fields, w.calls[i].now)))
    case Queue(i) =>
      var live := w.calls[i].phase.live;
      Moved(if live == map[] then w else w.(expiry := Some(Lapse(live))), i, Queued(live))
    case Write(i) => Moved(w.(count := Count(w.calls[i].phase.live)), i, Written(w.calls[i].phase.live))
    case Clear(i) =>
      Moved(if w.calls[i].phase.live == map[] then w.(expiry := None) else w, i, Notified(w.calls[i], true))
    case AckPending(i) => w.(pending := Acknowledged(w.pending, w.calls[i].now))
    case AckExpiry(i) => w.(expiry := Acknowledged(w.expiry, w.calls[i].now))
    case End(i) => Moved(w, i, Done)
  }

  ghost predicate Fresh(w: World) {
    w.fields == map[] && w.throttle.None? && w.pending.None? && w.expiry.None? && w.count == 0 && w.calls == map[]
  }

  /** A run of prompt calls. */
  ghost predicate Run(ws: seq<World>, es: seq<Step>, delay: nat) {
    && |ws| == |es| + 1 && Fresh(ws[0])
    && forall k {:trigger es[k]} :: 0 <= k < |es| ==>
      Possible(ws[k], es[k]) && ws[k + 1] == After(ws[k], es[k], delay) && Prompt(ws[k + 1], ws[k + 1].clock, delay)
  }

  // The invariant.

  predicate Holds(c: Call) {
    c.phase.Reserved? || c.phase.Listed? || c.phase.Queued? || c.phase.Written? || c.phase == Acking(true)
  }

  /** The reservation is the holder's, and outlives it. */
  ghost predicate Guarded(w: World, delay: nat) {
    && (w.throttle.Some? ==> w.throttle.value.expires >= w.throttle.value.now + delay)
    && forall i :: i in w.calls && Holds(w.calls[i]) ==>
      w.throttle.Some? && w.throttle.value.holder == i && w.throttle.value.now == w.calls[i].now
  }

  ghost predicate Timely(w: World, delay: nat) {
    Prompt(w, w.clock, delay) && forall i :: i in w.calls ==> w.calls[i].now <= w.clock
  }

  /** What a listing found is what is live, as far as it still is. */
  ghost predicate UpToDate(w: World, live: Observations) {
    LiveAt(live, w.clock) == LiveAt(w.fields, w.clock)
  }

  ghost predicate ListedWell(c: Call) {
    c.phase.Listed? || c.phase.Queued? || c.phase.Written? ==> LiveAt(c.phase.live, c.now) == c.phase.live
  }

  /** A holder that will get it right if it is left alone. */
  ghost predicate Promises(w: World, c: Call) {
    match c.phase
    case Reserved => true
    case Listed(live) => UpToDate(w, live)
    case Queued(live) => UpToDate(w, live) && (live != map[] ==> w.expiry == Some(Lapse(live)))
    case Written(live) =>
      UpToDate(w, live) && (live != map[] ==> w.expiry == Some(Lapse(live))) && w.count == Count(live)
    case _ => false
  }

  ghost predicate Promised(w: World) {
    exists i :: i in w.calls && Promises(w, w.calls[i])
  }

  /** Some call has yet to list the user or to queue it. */
  ghost predicate Owed(w: World) {
    exists i :: i in w.calls && (w.calls[i].phase.Owing? || w.calls[i].phase.Refused?)
  }

  predicate PendingAfter(w: World, now: nat) {
    w.pending.Some? && w.pending.value > now
  }

  /** The database is right about the user until the expiry entry falls due, or the entry is due. */
  ghost predicate Right(w: World) {
    var live := LiveAt(w.fields, w.clock);
    match w.expiry
    case None => live == map[] && w.count == 0
    case Some(at) =>
      at <= w.clock || (w.count == Count(live) && forall f :: f in live ==> at <= DeviceSummaries.LapseAt(live[f]))
  }

  ghost predicate RightAfter(w: World, now: nat) {
    Right(w) && (w.expiry.Some? ==> w.expiry.value > now)
  }

  ghost predicate Covered(w: World) {
    w.pending.Some? || Owed(w) || Promised(w) || Right(w)
  }

  /** A holder that will get it wrong is made up for by an entry that a flush as old as itself leaves alone. */
  ghost predicate MadeUpFor(w: World, c: Call) {
    Holds(c) && !c.phase.Acking? ==> Promises(w, c) || Owed(w) || PendingAfter(w, c.now)
  }

  /** What a flush is about to acknowledge is not needed. */
  ghost predicate Harmless(w: World, c: Call) {
    c.phase.Acking? ==>
      || PendingAfter(w, c.now)
      || (w.throttle.Some? && w.throttle.value.now >= c.now && (Owed(w) || Promised(w) || RightAfter(w, c.now)))
  }

  ghost predicate Inv(w: World, delay: nat) {
    && Timely(w, delay) && Guarded(w, delay) && Covered(w)
    && (forall i :: i in w.calls ==> ListedWell(w.calls[i]) && MadeUpFor(w, w.calls[i]) && Harmless(w, w.calls[i]))
  }

  lemma LapseIsFirst(live: Observations, now: nat)
    requires live != map[] && LiveAt(live, now) == live
    ensures now < Lapse(live) && forall f :: f in live ==> Lapse(live) <= DeviceSummaries.LapseAt(live[f])
  {
    var times := set f | f in live :: live[f];
    assert live.Keys != {} by { assert live.Keys == {} ==> live == map[]; }
    var f := Pick(live.Keys);
    assert live[f] in times;
    forall h | h in live ensures Lapse(live) <= DeviceSummaries.LapseAt(live[h]) {
      assert live[h] in times;
    }
    var g :| g in live && live[g] == DeviceSummaries.Least(times);
    assert g in LiveAt(live, now);
    DeviceSummaries.LapseIsExact(live[g], now);
  }

  /** The earlier of two moments sees more. */
  lemma LiveLater(fields: Observations, clock: nat, later: nat)
    requires clock <= later
    ensures LiveAt(LiveAt(fields, clock), later) == LiveAt(fields, later)
  {
    forall f | f in fields && Live(fields[f], later) ensures Live(fields[f], clock) {
      LiveEarlier(fields[f], clock, later);
    }
  }

  // Every step keeps it. First what does not concern coverage.

  lemma StepTimely(w: World, e: Step, delay: nat)
    requires Inv(w, delay) && Possible(w, e) && Prompt(After(w, e, delay), After(w, e, delay).clock, delay)
    ensures Timely(After(w, e, delay), delay)
  {
  }

  lemma StepGuarded(w: World, e: Step, delay: nat)
    requires Inv(w, delay) && Possible(w, e)
    ensures Guarded(After(w, e, delay), delay)
  {
  }

  lemma StepListedWell(w: World, e: Step, delay: nat, i: nat)
    requires Inv(w, delay) && Possible(w, e) && i in After(w, e, delay).calls
    ensures ListedWell(After(w, e, delay).calls[i])
  {
    if e == List(i) {
      LiveLater(w.fields, w.calls[i].now, w.calls[i].now);
    }
  }

  ghost predicate Safe(w: World) {
    Covered(w) && forall i :: i in w.calls ==> MadeUpFor(w, w.calls[i]) && Harmless(w, w.calls[i])
  }

  /** Whatever the cause of `v`: the calls promise what they promised, and the database is as right as it was. */
  lemma NoWorse(w: World, v: World)
    requires Safe(w) && v.calls == w.calls && v.pending == w.pending && v.throttle == w.throttle && v.expiry == w.expiry
    requires forall i :: i in w.calls && Promises(w, w.calls[i]) ==> Promises(v, w.calls[i])
    requires Right(w) ==> Right(v)
    ensures Safe(v)
  {
    assert Owed(w) ==> Owed(v);
    assert Promised(w) ==> Promised(v);
    forall i | i in v.calls ensures MadeUpFor(v, v.calls[i]) && Harmless(v, v.calls[i]) {
      assert MadeUpFor(w, w.calls[i]) && Harmless(w, w.calls[i]);
    }
  }

  lemma RightWaits(w: World, clock: nat)
    requires Right(w) && w.clock <= clock
    ensures Right(w.(clock := clock))
  {
    var live, later := LiveAt(w.fields, w.clock), LiveAt(w.fields, clock);
    LiveLater(w.fields, w.clock, clock);
    if w.expiry.Some? && clock < w.expiry.value {
      forall f | f in live ensures f in later {
        DeviceSummaries.LapseIsExact(live[f], clock);
      }
      assert later == live;
    }
  }

  lemma AdvanceSafe(w: World, clock: nat)
    requires Safe(w) && w.clock <= clock
    ensures Safe(w.(clock := clock))
  {
    var v := w.(clock := clock);
    LiveLater(w.fields, w.clock, clock);
    forall i | i in w.calls && Promises(w, w.calls[i]) ensures Promises(v, w.calls[i]) {
      if !w.calls[i].phase.Reserved? {
        LiveLater(w.calls[i].phase.live, w.clock, clock);
      }
    }
    if Right(w) {
      RightWaits(w, clock);
    }
    NoWorse(w, v);
  }

  lemma CleanSafe(w: World, fields: Observations)
    requires Safe(w) && LiveAt(fields, w.clock) == LiveAt(w.fields, w.clock)
    ensures Safe(w.(fields := fields))
  {
    NoWorse(w, w.(fields := fields));
  }

  /** A reservation that can lapse is nobody's, and no flush relies on it. */
  lemma LoseReservationSafe(w: World, delay: nat)
    requires Inv(w, delay) && Possible(w, LoseReservation)
    ensures Safe(w.(throttle := None))
  {
    var v := w.(throttle := None);
    assert Owed(w) ==> Owed(v);
    assert Promised(w) ==> Promised(v);
    forall i | i in v.calls ensures MadeUpFor(v, v.calls[i]) && Harmless(v, v.calls[i]) {
      assert MadeUpFor(w, w.calls[i]) && Harmless(w, w.calls[i]);
    }
  }

  /** While somebody owes a notification everything is made up for. */
  lemma OwedIsSafe(w: World, v: World, i: nat)
    requires Safe(w) && i in v.calls && (v.calls[i].phase.Owing? || v.calls[i].phase.Refused?)
    requires v.throttle == w.throttle && v.pending == w.pending
    requires forall j :: j in v.calls && j != i ==> j in w.calls && w.calls[j] == v.calls[j]
    ensures Safe(v)
  {
    assert Owed(v);
    forall j | j in v.calls ensures MadeUpFor(v, v.calls[j]) && Harmless(v, v.calls[j]) {
      if j != i {
        assert Harmless(w, w.calls[j]);
      }
    }
  }

  lemma ReserveSafe(w: World, i: nat, delay: nat)
    requires Inv(w, delay) && Possible(w, Reserve(i))
    ensures Safe(After(w, Reserve(i), delay))
  {
    var v := After(w, Reserve(i), delay);
    if w.throttle.Some? {
      OwedIsSafe(w, v, i);
    } else {
      assert Promises(v, v.calls[i]);
      forall j | j in v.calls ensures MadeUpFor(v, v.calls[j]) && Harmless(v, v.calls[j]) {
        assert Harmless(w, w.calls[j]);
      }
    }
  }

  /** A deferred user is pending until after every call that is under way. */
  lemma DeferSafe(w: World, i: nat, delay: nat)
    requires Inv(w, delay) && Possible(w, Defer(i))
    ensures Safe(After(w, Defer(i), delay))
  {
    var v := After(w, Defer(i), delay);
    forall j | j in v.calls ensures PendingAfter(v, v.calls[j].now) {
    }
  }

  // The steps of a holder.

  /** If the holder keeps its promise, or is made up for, nobody else is worse off. */
  lemma HolderSafe(w: World, v: World, i: nat, delay: nat)
    requires Inv(w, delay) && i in w.calls && Holds(w.calls[i]) && !w.calls[i].phase.Acking?
    requires v.throttle == w.throttle && v.pending == w.pending
    requires i in v.calls && v.calls == w.calls[i := w.calls[i].(phase := v.calls[i].phase)]
    requires Promises(w, w.calls[i]) ==> Promises(v, v.calls[i]) || RightAfter(v, w.calls[i].now)
    requires v.calls[i].phase == Acking(true) || v.calls[i].phase == Done || Holds(v.calls[i])
    requires Holds(v.calls[i]) && !v.calls[i].phase.Acking? && Promises(w, w.calls[i]) ==> Promises(v, v.calls[i])
    ensures Safe(v)
  {
    var c := w.calls[i];
    assert MadeUpFor(w, c);
    if Owed(w) {
      var j :| j in w.calls && (w.calls[j].phase.Owing? || w.calls[j].phase.Refused?);
      assert j in v.calls && v.calls[j] == w.calls[j];
    }
    assert Promises(w, c) ==> Promised(v) || RightAfter(v, c.now);
    forall j | j in v.calls ensures MadeUpFor(v, v.calls[j]) && Harmless(v, v.calls[j]) {
      if j != i {
        assert Harmless(w, w.calls[j]) && MadeUpFor(w, w.calls[j]);
      }
    }
  }

  lemma ListSafe(w: World, i: nat, delay: nat)
    requires Inv(w, delay) && Possible(w, List(i))
    ensures Safe(After(w, List(i), delay))
  {
    LiveLater(w.fields, w.calls[i].now, w.clock);
    HolderSafe(w, After(w, List(i), delay), i, delay);
  }

  lemma QueueSafe(w: World, i: nat, delay: nat)
    requires Inv(w, delay) && Possible(w, Queue(i))
    ensures Safe(After(w, Queue(i), delay))
  {
    HolderSafe(w, After(w, Queue(i), delay), i, delay);
  }

  lemma WriteSafe(w: World, i: nat, delay: nat)
    requires Inv(w, delay) && Possible(w, Write(i))
    ensures Safe(After(w, Write(i), delay))
  {
    HolderSafe(w, After(w, Write(i), delay), i, delay);
  }

  /** A promise kept to the end makes the database right, with an expiry entry that its own flush leaves alone. */
  lemma KeptPromise(w: World, i: nat, delay: nat)
    requires Inv(w, delay) && Possible(w, Clear(i)) && Promises(w, w.calls[i])
    ensures RightAfter(After(w, Clear(i), delay), w.calls[i].now)
  {
    var c := w.calls[i];
    var live := c.phase.live;
    assert ListedWell(c);
    if live != map[] {
      LapseIsFirst(live, c.now);
      if Lapse(live) > w.clock {
        forall f | f in live ensures Live(live[f], w.clock) {
          DeviceSummaries.LapseIsExact(live[f], w.clock);
        }
        assert LiveAt(live, w.clock) == live;
      }
    } else {
      assert LiveAt(live, w.clock) == map[];
    }
  }

  lemma ClearSafe(w: World, i: nat, delay: nat)
    requires Inv(w, delay) && Possible(w, Clear(i))
    ensures Safe(After(w, Clear(i), delay))
  {
    if Promises(w, w.calls[i]) {
      KeptPromise(w, i, delay);
    }
    HolderSafe(w, After(w, Clear(i), delay), i, delay);
  }

  // The steps of a flush that has notified.

  lemma AckPendingSafe(w: World, i: nat, delay: nat)
    requires Inv(w, delay) && Possible(w, AckPending(i))
    ensures Safe(After(w, AckPending(i), delay))
  {
    var v := After(w, AckPending(i), delay);
    assert Harmless(w, w.calls[i]);
    assert Owed(w) ==> Owed(v);
    assert Promised(w) ==> Promised(v);
    forall j | j in v.calls ensures MadeUpFor(v, v.calls[j]) && Harmless(v, v.calls[j]) {
      assert MadeUpFor(w, w.calls[j]) && Harmless(w, w.calls[j]);
    }
  }

  /** The expiry entry of a holder survives every flush older than it; a younger one has queued the user. */
  lemma AckExpiryPromises(w: World, i: nat, delay: nat, j: nat)
    requires Inv(w, delay) && Possible(w, AckExpiry(i)) && j in w.calls && Promises(w, w.calls[j])
    ensures Promises(After(w, AckExpiry(i), delay), w.calls[j])
      || (PendingAfter(w, w.calls[i].now) && w.calls[i].now > w.calls[j].now)
  {
    var c := w.calls[j];
    assert Harmless(w, w.calls[i]) && ListedWell(c);
    if !c.phase.Reserved? && c.phase.live != map[] {
      LapseIsFirst(c.phase.live, c.now);
    }
  }

  lemma AckExpirySafe(w: World, i: nat, delay: nat)
    requires Inv(w, delay) && Possible(w, AckExpiry(i))
    ensures Safe(After(w, AckExpiry(i), delay))
  {
    var v := After(w, AckExpiry(i), delay);
    assert Harmless(w, w.calls[i]);
    assert Owed(w) ==> Owed(v);
    forall j | j in w.calls && Promises(w, w.calls[j])
      ensures Promises(v, w.calls[j]) || (PendingAfter(w, w.calls[i].now) && w.calls[i].now > w.calls[j].now)
    {
      AckExpiryPromises(w, i, delay, j);
    }
    forall j | j in v.calls ensures MadeUpFor(v, v.calls[j]) && Harmless(v, v.calls[j]) {
      assert MadeUpFor(w, w.calls[j]) && Harmless(w, w.calls[j]);
    }
  }

  lemma EndSafe(w: World, i: nat, delay: nat)
    requires Inv(w, delay) && Possible(w, End(i))
    ensures Safe(After(w, End(i), delay))
  {
    var v := After(w, End(i), delay);
    if Owed(w) {
      var j :| j in w.calls && (w.calls[j].phase.Owing? || w.calls[j].phase.Refused?);
      assert j in v.calls && v.calls[j] == w.calls[j];
    }
    if Promised(w) {
      var j :| j in w.calls && Promises(w, w.calls[j]);
      assert j in v.calls && Promises(v, v.calls[j]);
    }
    forall j | j in v.calls ensures MadeUpFor(v, v.calls[j]) && Harmless(v, v.calls[j]) {
      if j != i {
        assert MadeUpFor(w, w.calls[j]) && Harmless(w, w.calls[j]);
      }
    }
  }

  lemma StepSafe(w: World, e: Step, delay: nat)
    requires Inv(w, delay) && Possible(w, e)
    ensures Safe(After(w, e, delay))
  {
    match e
    case Advance(clock) => AdvanceSafe(w, clock);
    case LoseReservation => LoseReservationSafe(w, delay);
    case Clean(fields) => CleanSafe(w, fields);
    case Begin(i, _) => OwedIsSafe(w, After(w, e, delay), i);
    case BeginFlush(i, _, _, _) => OwedIsSafe(w, After(w, e, delay), i);
    case Change(i, _) => OwedIsSafe(w, After(w, e, delay), i);
    case Reserve(i) => ReserveSafe(w, i, delay);
    case Defer(i) => DeferSafe(w, i, delay);
    case List(i) => ListSafe(w, i, delay);
    case Queue(i) => QueueSafe(w, i, delay);
    case Write(i) => WriteSafe(w, i, delay);
    case Clear(i) => ClearSafe(w, i, delay);
    case AckPending(i) => AckPendingSafe(w, i, delay);
    case AckExpiry(i) => AckExpirySafe(w, i, delay);
    case End(i) => EndSafe(w, i, delay);
  }

  lemma StepInv(w: World, e: Step, delay: nat)
    requires Inv(w, delay) && Possible(w, e) && Prompt(After(w, e, delay), After(w, e, delay).clock, delay)
    ensures Inv(After(w, e, delay), delay)
  {
    StepTimely(w, e, delay);
    StepGuarded(w, e, delay);
    StepSafe(w, e, delay);
    forall i | i in After(w, e, delay).calls ensures ListedWell(After(w, e, delay).calls[i]) {
      StepListedWell(w, e, delay, i);
    }
  }

  lemma {:induction false} RunInv(ws: seq<World>, es: seq<Step>, delay: nat, k: nat)
    requires Run(ws, es, delay) && k < |ws|
    ensures Inv(ws[k], delay)
  {
    if k == 0 {
      assert LiveAt(ws[0].fields, ws[0].clock) == map[];
    } else {
      RunInv(ws, es, delay, k - 1);
      StepInv(ws[k - 1], es[k - 1], delay);
    }
  }

  /** No lost summary, whatever overlaps: in every state of every run of prompt calls the user is pending, or some call
      has yet to list or defer it, or is writing from a listing that is up to date, or the expiry entry is due, or the
      database has exactly the number of live addresses and, if there are any, an expiry entry still to come and no
      later than the first lapse. */
  lemma NoLostSummary(ws: seq<World>, es: seq<Step>, delay: nat, k: nat)
    requires Run(ws, es, delay) && k < |ws|
    ensures var w := ws[k]; var live := LiveAt(w.fields, w.clock);
      || w.pending.Some?
      || Owed(w)
      || Promised(w)
      || DueBy(w.expiry, w.clock)
      || (&& w.count == Count(live)
          && forall f :: f in live ==> w.expiry.Some? && w.clock < w.expiry.value <= DeviceSummaries.LapseAt(live[f]))
  {
    RunInv(ws, es, delay, k);
    assert Count(map[]) == 0;
  }

  // What a call that is not prompt can do.

  /** A run of calls that take their time. */
  ghost predicate Loose(ws: seq<World>, es: seq<Step>, delay: nat) {
    && |ws| == |es| + 1 && Fresh(ws[0])
    && forall k {:trigger es[k]} :: 0 <= k < |es| ==> Possible(ws[k], es[k]) && ws[k + 1] == After(ws[k], es[k], delay)
  }

  /** Reached by calls that take their time. */
  ghost predicate Reached(w: World, delay: nat) {
    exists ws: seq<World>, es: seq<Step> :: Loose(ws, es, delay) && ws[|es|] == w
  }

  lemma Take(w: World, e: Step, delay: nat) returns (v: World)
    requires Reached(w, delay) && Possible(w, e)
    ensures Reached(v, delay) && v == After(w, e, delay)
  {
    v := After(w, e, delay);
    var ws: seq<World>, es: seq<Step> :| Loose(ws, es, delay) && ws[|es|] == w;
    var vs, fs := ws + [v], es + [e];
    forall k {:trigger fs[k]} | 0 <= k < |fs|
      ensures Possible(vs[k], fs[k]) && vs[k + 1] == After(vs[k], fs[k], delay)
    {
      assert fs[k] == if k < |es| then es[k] else e;
      assert vs[k] == ws[k];
    }
    assert Loose(vs, fs, delay) && vs[|fs|] == v;
  }

  lemma ListsNothing(w: World, i: nat, delay: nat) returns (v: World)
    requires Reached(w, delay) && In(w, i, Owing) && w.throttle.None? && w.fields == map[]
    ensures Reached(v, delay)
    ensures v == Moved(w.(throttle := Some(Reservation(w.clock + delay, i, w.calls[i].now))), i, Listed(map[]))
  {
    v := Take(w, Reserve(i), delay);
    v := Take(v, List(i), delay);
  }

  /** A call that gets the reservation of a user without devices writes a count of zero. */
  lemma WritesZero(w: World, i: nat, delay: nat) returns (v: World)
    requires Reached(w, delay) && In(w, i, Owing) && w.throttle.None? && w.fields == map[]
    ensures Reached(v, delay)
    ensures var r := Reservation(w.clock + delay, i, w.calls[i].now);
      v == Moved(w.(throttle := Some(r), expiry := None, count := 0), i, Notified(w.calls[i], true))
  {
    v := ListsNothing(w, i, delay);
    v := Take(v, Queue(i), delay);
    v := Take(v, Write(i), delay);
    assert Count(map[]) == 0;
    v := Take(v, Clear(i), delay);
    assert v.calls == w.calls[i := w.calls[i].(phase := Notified(w.calls[i], true))];
  }

  lemma Defers(w: World, i: nat, delay: nat) returns (v: World)
    requires Reached(w, delay) && In(w, i, Owing) && w.throttle.Some?
    ensures Reached(v, delay)
    ensures v == Moved(w.(pending := Some(w.calls[i].now + delay)), i, Notified(w.calls[i], false))
  {
    v := Take(w, Reserve(i), delay);
    v := Take(v, Defer(i), delay);
    assert v.calls == w.calls[i := w.calls[i].(phase := Notified(w.calls[i], false))];
  }

  const REPORT := Call(0, false, false, false, Done)
  const SLOW_REPORT := Call(0, false, false, false, Owing)

  /** The user has been written once and deferred once, and call 2, made at time 0, has not got further. */
  lemma SlowCallBegins(delay: nat) returns (w: World)
    ensures Reached(w, delay) && w.clock == 0 && w.fields == map[] && w.expiry.None? && w.count == 0
    ensures w.pending == Some(delay) && w.throttle == Some(Reservation(delay, 0, 0))
    ensures w.calls == map[0 := REPORT, 1 := REPORT, 2 := SLOW_REPORT]
  {
    w := World(0, map[], None, None, None, 0, map[]);
    assert Loose([w], [], delay) && [w][0] == w;
    w := Take(w, Begin(0, 0), delay);
    w := WritesZero(w, 0, delay);
    w := Take(w, Begin(1, 0), delay);
    w := Defers(w, 1, delay);
    w := Take(w, Begin(2, 0), delay);
  }

  /** A flush has listed the user, and has the pending entry to acknowledge. */
  lemma FlushOvertakes(v: World, delay: nat) returns (w: World)
    requires Reached(v, delay) && v.clock == 0 && v.fields == map[] && v.expiry.None? && v.count == 0
    requires v.pending == Some(delay) && v.throttle == Some(Reservation(delay, 0, 0))
    requires v.calls == map[0 := REPORT, 1 := REPORT, 2 := SLOW_REPORT]
    ensures Reached(w, delay) && w.clock == delay && w.fields == map[] && w.expiry.None? && w.count == 0
    ensures w.pending == Some(delay) && w.throttle.Some?
    ensures w.calls == map[0 := REPORT, 1 := REPORT, 2 := SLOW_REPORT,
      3 := Call(delay, true, true, false, Acking(true))]
  {
    w := Take(v, Advance(delay), delay);
    w := Take(w, LoseReservation, delay);
    w := Take(w, BeginFlush(3, delay, true, false), delay);
    w := WritesZero(w, 3, delay);
  }

  /** The bound is sharp: a report that changes the devices when the clock has reached its time plus the throttle can be
      forgotten. It is dated by its own time, 0. All calls are over, the user has a device, the database says it has
      none, and no queue holds it. */
  lemma SlowCallIsLost(delay: nat) returns (w: World)
    requires DeviceSummaries.ValidDelay(delay)
    ensures Reached(w, delay) && w.clock == delay && (forall i :: i in w.calls ==> w.calls[i].phase.Done?)
    ensures w.pending.None? && w.expiry.None? && w.count == 0
    ensures w.fields == map[Field(1, "a") := Unix(0)] && Count(LiveAt(w.fields, w.clock)) == 1
  {
    w := SlowCallBegins(delay);
    w := FlushOvertakes(w, delay);
    var fields := map[Field(1, "a") := Unix(0)];
    w := Take(w, Change(2, fields), delay);
    w := Defers(w, 2, delay);
    w := Take(w, AckPending(3), delay);
    w := Take(w, End(3), delay);
    assert LiveAt(fields, delay) == fields;
    assert (set f | f in fields :: f.ip) == {"a"};
  }
}
