/** How far apart the writes of one user's summary are when calls overlap: the reservation and the write it allows are
    separate commands, and a write may come late. */
module SummarySpacing {
  import opened Collections
  import opened DeviceStore
  import opened SummaryInterleaving

  /** A reservation runs until `at`, or that moment has come. */
  predicate ReservedUntil(w: World, at: int) {
    w.clock >= at || (w.throttle.Some? && w.throttle.value.expires >= at)
  }

  lemma {:induction false} StaysReserved(ws: seq<World>, es: seq<Step>, delay: nat, j: nat, k: nat, at: int)
    requires Loose(ws, es, delay) && j <= k < |ws| && ReservedUntil(ws[j], at)
    ensures ReservedUntil(ws[k], at)
    decreases k
  {
    if j < k {
      StaysReserved(ws, es, delay, j, k - 1, at);
      assert ws[k - 1 + 1] == After(ws[k - 1], es[k - 1], delay);
    }
  }

  /** The step gets the reservation. */
  predicate Reserves(w: World, e: Step) {
    e.Reserve? && w.throttle.None?
  }

  /** In every run, however slow its calls, two reservations of one user are at least the throttle apart. */
  lemma ReservationsApart(ws: seq<World>, es: seq<Step>, delay: nat, j: nat, k: nat)
    requires Loose(ws, es, delay) && j < k < |es| && Reserves(ws[j], es[j]) && Reserves(ws[k], es[k])
    ensures ws[k].clock >= ws[j].clock + delay
  {
    assert ws[j + 1] == After(ws[j], es[j], delay);
    StaysReserved(ws, es, delay, j + 1, k, ws[j].clock + delay);
  }

  /** Call `i` has written, under a reservation until `at` that is still there unless that moment has come. */
  ghost predicate Wrote(w: World, i: nat, at: int) {
    && i in w.calls && (w.calls[i].phase.Written? || w.calls[i].phase.Acking? || w.calls[i].phase.Done?)
    && (w.clock >= at || (w.throttle.Some? && w.throttle.value.expires == at && w.throttle.value.holder == i))
  }

  lemma StepWrote(w: World, e: Step, delay: nat, i: nat, at: int)
    requires Possible(w, e) && Wrote(w, i, at)
    ensures Wrote(After(w, e, delay), i, at)
  {
  }

  lemma {:induction false} StaysWrote(ws: seq<World>, es: seq<Step>, delay: nat, j: nat, k: nat, i: nat, at: int)
    requires Run(ws, es, delay) && j <= k < |ws| && Wrote(ws[j], i, at)
    ensures Wrote(ws[k], i, at)
    decreases k
  {
    if j < k {
      StaysWrote(ws, es, delay, j, k - 1, i, at);
      StepWrote(ws[k - 1], es[k - 1], delay, i, at);
    }
  }

  /** In every run of prompt calls nothing is written again before the reservation of the write before has run out. */
  lemma WritesOutwait(ws: seq<World>, es: seq<Step>, delay: nat, j: nat, k: nat)
    requires Run(ws, es, delay) && j < k < |es| && es[j].Write? && es[k].Write?
    ensures ws[j].throttle.Some? && ws[k].clock >= ws[j].throttle.value.expires
  {
    RunInv(ws, es, delay, j);
    RunInv(ws, es, delay, k);
    assert Holds(ws[j].calls[es[j].id]) && Holds(ws[k].calls[es[k].id]);
    assert ws[j + 1] == After(ws[j], es[j], delay);
    StaysWrote(ws, es, delay, j + 1, k, es[j].id, ws[j].throttle.value.expires);
  }

  /** Call `i` got the reservation that is there by step `r`. */
  ghost predicate GotAt(ws: seq<World>, es: seq<Step>, delay: nat, r: nat, k: nat) {
    && r < k < |ws| && |ws| == |es| + 1 && Reserves(ws[r], es[r]) && ws[k].throttle.Some?
    && ws[k].throttle.value.holder == es[r].id && ws[k].throttle.value.expires == ws[r].clock + delay
  }

  /** Every reservation was got by a step, the throttle before it runs out. */
  lemma {:induction false} ReservationWasGot(ws: seq<World>, es: seq<Step>, delay: nat, k: nat) returns (r: nat)
    requires Loose(ws, es, delay) && k < |ws| && ws[k].throttle.Some?
    ensures GotAt(ws, es, delay, r, k)
    decreases k
  {
    assert k > 0;
    assert ws[k - 1 + 1] == After(ws[k - 1], es[k - 1], delay);
    if Reserves(ws[k - 1], es[k - 1]) {
      r := k - 1;
    } else {
      r := ReservationWasGot(ws, es, delay, k - 1);
    }
  }

  lemma RunIsLoose(ws: seq<World>, es: seq<Step>, delay: nat)
    requires Run(ws, es, delay)
    ensures Loose(ws, es, delay)
  {
    forall k {:trigger es[k]} | 0 <= k < |es|
      ensures Possible(ws[k], es[k]) && ws[k + 1] == After(ws[k], es[k], delay)
    {
    }
  }

  /** Every write is made under a reservation of its own call, before it runs out. */
  lemma WriteIsReserved(ws: seq<World>, es: seq<Step>, delay: nat, j: nat) returns (r: nat)
    requires Run(ws, es, delay) && j < |es| && es[j].Write?
    ensures GotAt(ws, es, delay, r, j) && es[r].id == es[j].id && ws[j].clock < ws[r].clock + delay
  {
    RunIsLoose(ws, es, delay);
    RunInv(ws, es, delay, j);
    assert Holds(ws[j].calls[es[j].id]);
    r := ReservationWasGot(ws, es, delay, j);
  }

  /** Steps `j` and `k` write, `j` with a lag behind the step `r` that got its reservation. */
  ghost predicate WriteTwice(ws: seq<World>, es: seq<Step>, delay: nat, lag: int, r: nat, j: nat, k: nat) {
    && Run(ws, es, delay) && j < k < |es| && es[j].Write? && es[k].Write?
    && GotAt(ws, es, delay, r, j) && ws[j].clock == ws[r].clock + lag
  }

  /** Two writes are at least the throttle apart, less the lag of the first behind its reservation. */
  lemma WritesApart(ws: seq<World>, es: seq<Step>, delay: nat, lag: int, r: nat, j: nat, k: nat)
    requires WriteTwice(ws, es, delay, lag, r, j, k)
    ensures ws[k].clock >= ws[j].clock + delay - lag
  {
    WritesOutwait(ws, es, delay, j, k);
  }

  // The bound is attained.

  /** Call 0 reserves at time 0 and writes after a lag; call 1 reserves and writes as soon as it can. */
  function Early(clock: nat, p: Phase, throttle: Option<Reservation>): World {
    World(clock, map[], throttle, None, None, 0, map[0 := Call(0, false, false, false, p)])
  }

  function Late(clock: nat, p: Phase, throttle: Option<Reservation>): World {
    World(clock, map[], throttle, None, None, 0,
          map[0 := Call(0, false, false, false, Done), 1 := Call(clock, false, false, false, p)])
  }

  ghost predicate Goes(w: World, e: Step, v: World, delay: nat) {
    Possible(w, e) && v == After(w, e, delay) && Prompt(v, v.clock, delay)
  }

  lemma FirstReserves(delay: nat)
    requires delay > 0
    ensures var first := Some(Reservation(delay, 0, 0));
      && Goes(World(0, map[], None, None, None, 0, map[]), Begin(0, 0), Early(0, Owing, None), delay)
      && Goes(Early(0, Owing, None), Reserve(0), Early(0, Reserved, first), delay)
      && Goes(Early(0, Reserved, first), List(0), Early(0, Listed(map[]), first), delay)
      && Goes(Early(0, Listed(map[]), first), Queue(0), Early(0, Queued(map[]), first), delay)
  {
  }

  lemma FirstWrites(delay: nat, lag: nat)
    requires lag < delay
    ensures var first := Some(Reservation(delay, 0, 0));
      && Goes(Early(0, Queued(map[]), first), Advance(lag), Early(lag, Queued(map[]), first), delay)
      && Goes(Early(lag, Queued(map[]), first), Write(0), Early(lag, Written(map[]), first), delay)
      && Goes(Early(lag, Written(map[]), first), Clear(0), Early(lag, Done, first), delay)
      && Goes(Early(lag, Done, first), Advance(delay), Early(delay, Done, first), delay)
      && Goes(Early(delay, Done, first), LoseReservation, Early(delay, Done, None), delay)
  {
    assert Count(map[]) == 0;
  }

  lemma SecondReserves(delay: nat)
    requires delay > 0
    ensures var second := Some(Reservation(delay + delay, 1, delay));
      && Goes(Early(delay, Done, None), Begin(1, delay), Late(delay, Owing, None), delay)
      && Goes(Late(delay, Owing, None), Reserve(1), Late(delay, Reserved, second), delay)
      && Goes(Late(delay, Reserved, second), List(1), Late(delay, Listed(map[]), second), delay)
  {
  }

  lemma SecondWrites(delay: nat)
    requires delay > 0
    ensures var second := Some(Reservation(delay + delay, 1, delay));
      && Goes(Late(delay, Listed(map[]), second), Queue(1), Late(delay, Queued(map[]), second), delay)
      && Goes(Late(delay, Queued(map[]), second), Write(1), Late(delay, Written(map[]), second), delay)
  {
    assert Count(map[]) == 0;
  }

  lemma Extend(ws: seq<World>, es: seq<Step>, e: Step, v: World, delay: nat) returns (vs: seq<World>, fs: seq<Step>)
    requires Run(ws, es, delay) && Goes(ws[|es|], e, v, delay)
    ensures vs == ws + [v] && fs == es + [e] && Run(vs, fs, delay) && vs[|fs|] == v
  {
    vs, fs := ws + [v], es + [e];
    forall k {:trigger fs[k]} | 0 <= k < |fs| ensures Goes(vs[k], fs[k], vs[k + 1], delay) {
      assert fs[k] == if k < |es| then es[k] else e;
      assert vs[k] == ws[k];
    }
  }

  /** The run so far: call 0 got its reservation at time 0 by step 1, and step 5 is its write. */
  ghost predicate WroteLate(ws: seq<World>, es: seq<Step>, delay: nat, lag: nat) {
    && Run(ws, es, delay) && |es| >= 6 && es[1] == Reserve(0) && ws[1] == Early(0, Owing, None)
    && es[5] == Write(0) && ws[5] == Early(lag, Queued(map[]), Some(Reservation(delay, 0, 0)))
  }

  lemma RunBegins(delay: nat) returns (ws: seq<World>, es: seq<Step>)
    requires delay > 0
    ensures Run(ws, es, delay) && |es| == 4 && es[1] == Reserve(0) && ws[1] == Early(0, Owing, None)
    ensures ws[4] == Early(0, Queued(map[]), Some(Reservation(delay, 0, 0)))
  {
    var first := Some(Reservation(delay, 0, 0));
    FirstReserves(delay);
    ws, es := [World(0, map[], None, None, None, 0, map[])], [];
    ws, es := Extend(ws, es, Begin(0, 0), Early(0, Owing, None), delay);
    ws, es := Extend(ws, es, Reserve(0), Early(0, Reserved, first), delay);
    ws, es := Extend(ws, es, List(0), Early(0, Listed(map[]), first), delay);
    ws, es := Extend(ws, es, Queue(0), Early(0, Queued(map[]), first), delay);
  }

  lemma RunWrites(delay: nat, lag: nat) returns (ws: seq<World>, es: seq<Step>)
    requires lag < delay
    ensures WroteLate(ws, es, delay, lag) && |es| == 7 && ws[7] == Early(lag, Done, Some(Reservation(delay, 0, 0)))
  {
    var first := Some(Reservation(delay, 0, 0));
    FirstWrites(delay, lag);
    ws, es := RunBegins(delay);
    ws, es := Extend(ws, es, Advance(lag), Early(lag, Queued(map[]), first), delay);
    ws, es := Extend(ws, es, Write(0), Early(lag, Written(map[]), first), delay);
    ws, es := Extend(ws, es, Clear(0), Early(lag, Done, first), delay);
  }

  lemma ExtendLate(ws: seq<World>, es: seq<Step>, e: Step, v: World, delay: nat, lag: nat)
    returns (vs: seq<World>, fs: seq<Step>)
    requires WroteLate(ws, es, delay, lag) && Goes(ws[|es|], e, v, delay)
    ensures WroteLate(vs, fs, delay, lag) && |fs| == |es| + 1
    ensures vs[|fs|] == v && fs[|es|] == e && vs[|es|] == ws[|es|]
  {
    vs, fs := Extend(ws, es, e, v, delay);
  }

  lemma RunWaits(delay: nat, lag: nat) returns (ws: seq<World>, es: seq<Step>)
    requires lag < delay
    ensures WroteLate(ws, es, delay, lag) && |es| == 10 && ws[10] == Late(delay, Owing, None)
  {
    FirstWrites(delay, lag);
    SecondReserves(delay);
    ws, es := RunWrites(delay, lag);
    ws, es := ExtendLate(ws, es, Advance(delay), Early(delay, Done, Some(Reservation(delay, 0, 0))), delay, lag);
    ws, es := ExtendLate(ws, es, LoseReservation, Early(delay, Done, None), delay, lag);
    ws, es := ExtendLate(ws, es, Begin(1, delay), Late(delay, Owing, None), delay, lag);
  }

  lemma RunEnds(delay: nat, lag: nat) returns (ws: seq<World>, es: seq<Step>)
    requires lag < delay
    ensures WroteLate(ws, es, delay, lag) && |es| == 14 && es[13] == Write(1) && ws[13].clock == delay
  {
    var second := Some(Reservation(delay + delay, 1, delay));
    SecondReserves(delay);
    SecondWrites(delay);
    ws, es := RunWaits(delay, lag);
    ws, es := ExtendLate(ws, es, Reserve(1), Late(delay, Reserved, second), delay, lag);
    ws, es := ExtendLate(ws, es, List(1), Late(delay, Listed(map[]), second), delay, lag);
    ws, es := ExtendLate(ws, es, Queue(1), Late(delay, Queued(map[]), second), delay, lag);
    ws, es := ExtendLate(ws, es, Write(1), Late(delay, Written(map[]), second), delay, lag);
  }

  /** For every lag there is a run of two prompt calls whose writes are no further apart than that. */
  lemma BoundIsAttained(delay: nat, lag: nat) returns (ws: seq<World>, es: seq<Step>)
    requires lag < delay
    ensures WriteTwice(ws, es, delay, lag, 1, 5, 13) && ws[13].clock == ws[5].clock + delay - lag
  {
    ws, es := RunEnds(delay, lag);
    assert GotAt(ws, es, delay, 1, 5);
  }

  /** So writes are sure to be the throttle apart if and only if the first is made at the instant of its reservation. */
  lemma ApartIff(delay: nat, lag: nat)
    requires lag < delay
    ensures lag == 0 <==>
      forall ws: seq<World>, es, r: nat, j: nat, k: nat :: WriteTwice(ws, es, delay, lag, r, j, k) ==>
        ws[k].clock >= ws[j].clock + delay
  {
    forall ws: seq<World>, es, r: nat, j: nat, k: nat | WriteTwice(ws, es, delay, lag, r, j, k)
      ensures ws[k].clock >= ws[j].clock + delay - lag
    {
      WritesApart(ws, es, delay, lag, r, j, k);
    }
    var ws, es := BoundIsAttained(delay, lag);
  }
}
