/** The in-memory lease service, call by call. Each call is one step of the model in `DiagnosticLease`. */
module LeaseService {
  import opened Collections
  import opened Ordering
  import opened DiagnosticLease

  class MemoryLeaseService {
    const controlEpoch: string
    var controlVersion: int
    var sessions: map<string, Session>
    var idempotency: map<Slot, Record>
    var bindings: map<Query, Binding>
    ghost var clock: Time
    ghost var issued: set<string>
    ghost var served: seq<Served>

    ghost function View(): World
      reads this
    {
      World(Lease(controlEpoch, controlVersion, sessions, idempotency, bindings), clock, issued, served)
    }

    ghost predicate Valid()
      reads this
    {
      Inv(View())
    }

    constructor (epoch: string, ghost now: Time)
      ensures Valid() && Initial(View()) && View().lease.epoch == epoch
    {
      controlEpoch, controlVersion := epoch, 1;
      sessions, idempotency, bindings := map[], map[], map[];
      clock, issued, served := now, {}, [];
      new;
      assert LiveCustomers(sessions, clock) == {};
    }

    /** `id` is the identifier drawn for a new session. */
    method StartSession(input: StartInput, now: Time, id: string) returns (r: Result<StartResult, Error>)
      requires Valid() && now >= clock && id !in issued
      modifies this
      ensures Valid() && View() == Apply(old(View()), StartCall(input, now, id))
      ensures r == Started(old(View()).lease, input, now, id).1
    {
      StepInv(View(), StartCall(input, now, id));
      r := StartOrFind(input, now, id);
    }

    method StartOrFind(input: StartInput, now: Time, id: string) returns (r: Result<StartResult, Error>)
      modifies this
      ensures View() == Apply(old(View()), StartCall(input, now, id))
      ensures r == Started(old(View()).lease, input, now, id).1
    {
      CleanupExpired(now);
      r := FindOrCreate(input, now, id);
    }

    method FindOrCreate(input: StartInput, now: Time, id: string) returns (r: Result<StartResult, Error>)
      modifies this`controlVersion, this`sessions, this`idempotency, this`issued
      ensures var want := FoundOrPlaced(old(View()).lease, input, now, id);
        && View().lease == want.0 && r == want.1
        && issued == old(issued) + if r.Ok? && r.value.isNew then {id} else {}
    {
      var slot := Slot(input.operator, input.key);
      if slot in idempotency {
        if idempotency[slot].customer != input.customer {
          return Err(IdempotencyConflict);
        }
        if input.customer in sessions && sessions[input.customer].id == idempotency[slot].session {
          return Ok(Start(sessions[input.customer], false));
        }
      }
      if input.customer in sessions {
        var existing := sessions[input.customer];
        if existing.enabled && now < existing.expires {
          if input.key != "" {
            idempotency := idempotency[slot := Record(input.customer, existing.id, existing.expires, now)];
          }
          return Ok(Start(existing, false));
        }
      }
      r := Create(input, slot, now, id);
    }

    /** A new session, if there is room for one. */
    method Create(input: StartInput, slot: Slot, now: Time, id: string) returns (r: Result<StartResult, Error>)
      modifies this`controlVersion, this`sessions, this`idempotency, this`issued
      ensures if |LiveCustomers(old(sessions), now)| >= MAX_SESSIONS
        then r == Err(LimitReached) && View() == old(View())
        else
        var s := NewSession(input, now, id);
        && r == Ok(Start(s, true)) && controlVersion == old(controlVersion) + 1 && issued == old(issued) + {id}
        && sessions == old(sessions)[input.customer := s]
        && idempotency == Noted(old(idempotency), slot, input.customer, s, now)
    {
      var active := CountLive(sessions, now);
      if active >= MAX_SESSIONS {
        return Err(LimitReached);
      }
      controlVersion := controlVersion + 1;
      var session := Session(id, input.customer, input.operator, now, now, now + SESSION_LIFE, 1, true, Pending,
        Ordered(input.targets), map[]);
      sessions := sessions[input.customer := session];
      if slot.key != "" {
        idempotency := idempotency[slot := Record(input.customer, id, session.expires, now)];
      }
      issued := issued + {id};
      r := Ok(Start(session, true));
    }

    method StopSession(customer: string, id: string, ghost now: Time) returns (r: Result<Session, Error>)
      requires Valid() && now >= clock
      modifies this
      ensures Valid() && View() == Apply(old(View()), StopCall(customer, id, now))
      ensures r == Halted(old(View()).lease, customer, id).1
    {
      StepInv(View(), StopCall(customer, id, now));
      clock := now;
      r := Halt(customer, id);
    }

    method Halt(customer: string, id: string) returns (r: Result<Session, Error>)
      modifies this`controlVersion, this`sessions
      ensures View().lease == Halted(old(View()).lease, customer, id).0
      ensures r == Halted(old(View()).lease, customer, id).1
    {
      if customer !in sessions || sessions[customer].id != id {
        return Err(NotFound);
      }
      var session := sessions[customer];
      if !session.enabled {
        return Ok(session);
      }
      controlVersion := controlVersion + 1;
      session := session.(revision := session.revision + 1, enabled := false, state := Stopping);
      var allStopped := AllStopped(session);
      if allStopped || |session.targets| == 0 {
        session := session.(state := Stopped);
      }
      sessions := sessions[customer := session];
      r := Ok(session);
    }

    /** The event this call amounts to carries the listing that the call found. */
    method BuildNodeSnapshot(scope: string, node: int, runtime: string, request: string, now: Time)
      returns (r: Snapshot, ghost e: Event)
      requires Valid() && now >= clock
      modifies this
      ensures e.SnapshotCall? && e == SnapshotCall(node, runtime, request, now, r.entries, e.listed)
      ensures Enabled(old(View()), e) && Valid() && View() == Apply(old(View()), e)
      ensures r == Snapshot(scope, controlEpoch, old(controlVersion), request, runtime, now / SECOND, r.entries)
    {
      CleanedOk(View(), now);
      CleanupExpired(now);
      var entries, listed := Listing(sessions, node, now);
      e := SnapshotCall(node, runtime, request, now, entries, listed);
      StepInv(old(View()), e);
      r := Snapshot(scope, controlEpoch, controlVersion, request, runtime, now / SECOND, entries);
      var binding := Binding(node, runtime, request, controlEpoch, controlVersion, listed, now);
      bindings := bindings[Query(node, request) := binding];
      served := served + [Served(node, request, now, controlVersion, entries, listed)];
    }

    method ProcessNodeAck(node: int, runtime: string, ack: Payload, now: Time) returns (r: Result<(), Error>)
      requires Valid() && now >= clock
      modifies this
      ensures Valid() && View() == Apply(old(View()), AckCall(node, runtime, ack, now))
      ensures r == Acknowledged(old(View()).lease, node, runtime, ack, now).1
    {
      StepInv(View(), AckCall(node, runtime, ack, now));
      clock := now;
      var q := Query(node, ack.request);
      if q !in bindings || now - bindings[q].at > BINDING_LIFE {
        return Err(SnapshotConflict);
      }
      if bindings[q].epoch != ack.epoch || bindings[q].version != ack.version {
        return Err(SnapshotConflict);
      }
      var after, ok := ApplyReports(sessions, node, runtime, bindings[q].listed, ack.reports, now);
      sessions := after;
      r := if ok then Ok(()) else Err(SnapshotConflict);
    }

    method CleanupExpired(now: Time)
      modifies this`sessions, this`bindings, this`idempotency, this`clock
      ensures sessions == CleanedSessions(old(sessions), now)
      ensures bindings == CleanedBindings(old(bindings), now)
      ensures idempotency == CleanedRecords(old(idempotency), now)
      ensures clock == now
    {
      var s := SweepSessions(sessions, now);
      var b := SweepBindings(bindings, now);
      var i := SweepRecords(idempotency, now);
      sessions, bindings, idempotency, clock := s, b, i, now;
    }
  }

  /** Sessions past their time are switched off; those off for a day are dropped. */
  method SweepSessions(sessions: map<string, Session>, now: Time) returns (r: map<string, Session>)
    ensures r == CleanedSessions(sessions, now)
  {
    r := sessions;
    var left := sessions.Keys;
    while left != {}
      invariant left <= sessions.Keys && r.Keys <= sessions.Keys
      invariant forall c :: c in left ==> c in r && r[c] == sessions[c]
      invariant forall c :: c in sessions && c !in left ==> (c in r <==> !Buried(Aged(sessions[c], now), now))
      invariant forall c :: c in r && c !in left ==> r[c] == Aged(sessions[c], now)
      decreases left
    {
      var c := AnyOf(left);
      var s := r[c];
      if s.enabled && now > s.expires {
        s := s.(enabled := false, state := Expired);
        r := r[c := s];
      }
      if !s.enabled && now - s.expires > TOMBSTONE_LIFE {
        r := r - {c};
      }
      left := left - {c};
    }
  }

  method SweepBindings(bindings: map<Query, Binding>, now: Time) returns (r: map<Query, Binding>)
    ensures r == CleanedBindings(bindings, now)
  {
    r := bindings;
    var left := bindings.Keys;
    while left != {}
      invariant left <= bindings.Keys && r.Keys <= bindings.Keys && forall q :: q in r ==> r[q] == bindings[q]
      invariant forall q :: q in bindings ==> (q in r <==> q in left || now - bindings[q].at <= BINDING_LIFE)
      decreases left
    {
      var q := AnyOf(left);
      if now - bindings[q].at > BINDING_LIFE {
        r := r - {q};
      }
      left := left - {q};
    }
  }

  method SweepRecords(records: map<Slot, Record>, now: Time) returns (r: map<Slot, Record>)
    ensures r == CleanedRecords(records, now)
  {
    r := records;
    var left := records.Keys;
    while left != {}
      invariant left <= records.Keys && r.Keys <= records.Keys && forall k :: k in r ==> r[k] == records[k]
      invariant forall k :: k in records ==> (k in r <==> k in left || now - records[k].created <= RECORD_LIFE)
      decreases left
    {
      var k := AnyOf(left);
      if now - records[k].created > RECORD_LIFE {
        r := r - {k};
      }
      left := left - {k};
    }
  }

  method CountLive(sessions: map<string, Session>, now: Time) returns (n: nat)
    ensures n == |LiveCustomers(sessions, now)|
  {
    n := 0;
    var left := sessions.Keys;
    ghost var counted: set<string> := {};
    while left != {}
      invariant left <= sessions.Keys && n == |counted|
      invariant forall c :: c in counted <==> c in sessions && c !in left && Live(sessions[c], now)
      decreases left
    {
      var c := AnyOf(left);
      if sessions[c].enabled && now < sessions[c].expires {
        n := n + 1;
        counted := counted + {c};
      }
      left := left - {c};
    }
    assert forall c :: c in counted <==> c in LiveCustomers(sessions, now);
    assert counted == LiveCustomers(sessions, now);
  }

  method AllStopped(s: Session) returns (all: bool)
    ensures all <==> AllQuiet(s)
  {
    for i := 0 to |s.targets|
      invariant forall k :: 0 <= k < i ==> Quiet(s, s.targets[k])
    {
      var node := s.targets[i];
      if node !in s.acks || s.acks[node].effective || s.acks[node].revision < s.revision {
        return false;
      }
    }
    all := true;
  }

  method UpdateSessionState(s: Session) returns (r: Session)
    ensures r == Recomputed(s)
  {
    if !s.enabled {
      var allStopped := AllStopped(s);
      return s.(state := if allStopped then Stopped else Stopping);
    }
    var effective := 0;
    for i := 0 to |s.targets|
      invariant effective == EffectiveCount(s, i)
    {
      var node := s.targets[i];
      if node in s.acks && s.acks[node].effective && s.acks[node].revision == s.revision {
        effective := effective + 1;
      }
    }
    if |s.targets| == 0 {
      r := s.(state := Active);
    } else if effective == |s.targets| {
      r := s.(state := Active);
    } else if effective > 0 {
      r := s.(state := Partial);
    } else {
      r := s.(state := Pending);
    }
  }

  /** One report reaches the one session of that identifier, if it is still in the table. */
  method ApplyReport(sessions: map<string, Session>, node: int, runtime: string, p: Report,
                     now: Time) returns (r: map<string, Session>)
    requires Distinct(sessions)
    ensures r == WithAck(sessions, node, runtime, p, now)
  {
    var left := sessions.Keys;
    while left != {}
      invariant left <= sessions.Keys
      invariant forall c :: c in sessions && c !in left ==> sessions[c].id != p.session
      decreases left
    {
      var c := AnyOf(left);
      if sessions[c].id == p.session {
        var s := sessions[c];
        s := s.(acks := s.acks[node := Ack(node, runtime, p.effective, p.revision, now, p.deadline, p.reason)]);
        s := UpdateSessionState(s);
        r := sessions[c := s];
        assert forall d :: d in sessions && d != c ==> sessions[d].id != p.session;
        return;
      }
      left := left - {c};
    }
    r := sessions;
  }

  method ApplyReports(sessions: map<string, Session>, node: int, runtime: string, listed: map<string, int>,
                      reports: seq<Report>, now: Time)
    returns (r: map<string, Session>, ok: bool)
    requires Distinct(sessions)
    ensures (r, ok) == Reported(sessions, node, runtime, listed, reports, now)
  {
    r := sessions;
    for i := 0 to |reports|
      invariant Distinct(r)
      invariant Reported(r, node, runtime, listed, reports[i..], now) ==
        Reported(sessions, node, runtime, listed, reports, now)
    {
      var p := reports[i];
      assert reports[i..][0] == p && reports[i..][1..] == reports[i + 1..];
      if p.session !in listed || p.revision != listed[p.session] {
        return r, false;
      }
      r := ApplyReport(r, node, runtime, p, now);
    }
    ok := true;
  }

  /** The snapshot's entries, and the revisions to remember. */
  method Listing(sessions: map<string, Session>, node: int, now: Time) returns (entries: seq<Entry>,
                 listed: map<string, int>)
    requires Distinct(sessions)
    ensures IsListing(entries, sessions, node, now) && BoundTo(listed, entries)
  {
    entries, listed := [], map[];
    var left := sessions.Keys;
    while left != {}
      invariant left <= sessions.Keys
      invariant SortedEntries(entries) && BoundTo(listed, entries)
      invariant forall c :: c in sessions && c !in left && Lists(sessions[c], node, now) ==>
        EntryOf(sessions[c]) in entries
      invariant forall e :: e in entries ==> Source(sessions, left, node, now, e)
      decreases left
    {
      var c := AnyOf(left);
      var s := sessions[c];
      var targeted := Targeted(s.targets, node);
      if s.enabled && now <= s.expires && targeted {
        var e := EntryOf(s);
        var before, bound := entries, listed;
        entries := InsertEntry(entries, e);
        listed := listed[s.id := s.revision];
        assert BoundTo(listed, entries) by { BoundMore(bound, before, listed, entries, e); }
      }
      left := left - {c};
      assert forall e :: e in entries ==> Source(sessions, left, node, now, e);
    }
  }

  ghost predicate Source(sessions: map<string, Session>, left: set<string>, node: int, now: Time, e: Entry) {
    exists c :: c in sessions && c !in left && Lists(sessions[c], node, now) && e == EntryOf(sessions[c])
  }

  lemma BoundMore(bound: map<string, int>, before: seq<Entry>, listed: map<string, int>, entries: seq<Entry>, e: Entry)
    requires BoundTo(bound, before) && listed == bound[e.session := e.revision]
    requires (forall x :: x in before ==> x.session != e.session) && forall x :: x in entries <==> x == e || x in before
    ensures BoundTo(listed, entries)
  {
  }

  method Targeted(targets: seq<int>, node: int) returns (r: bool)
    ensures r <==> node in targets
  {
    for i := 0 to |targets|
      invariant node !in targets[..i]
    {
      if targets[i] == node {
        return true;
      }
    }
    r := false;
  }

  method InsertEntry(s: seq<Entry>, e: Entry) returns (r: seq<Entry>)
    requires SortedEntries(s) && forall x :: x in s ==> x.session != e.session
    ensures SortedEntries(r) && forall x :: x in r <==> x == e || x in s
  {
    var n := 0;
    while n < |s| && Below(s[n].session, e.session)
      invariant 0 <= n <= |s|
      invariant forall i :: 0 <= i < n ==> Below(s[i].session, e.session)
    {
      n := n + 1;
    }
    r := s[..n] + [e] + s[n..];
    assert forall i :: 0 <= i < |r| ==> r[i] == if i < n then s[i] else if i == n then e else s[i - 1];
    Spliced(s, n, e, r);
    forall i | n <= i < |s| ensures Below(e.session, s[i].session) {
      assert s[n] in s;
      BelowTotal(s[n].session, e.session);
      if n < i {
        BelowTransitive(e.session, s[n].session, s[i].session);
      }
    }
  }
}
