/** Why the deletion that ends a node clear has to be taken together with what comes before it: nothing fences it. */
module DeviceUnfenced {
  import opened DeviceStore
  import opened DeviceFence

  ghost predicate Reachable(w: World) {
    exists ws: seq<World>, es: seq<Step> :: Run(ws, es) && ws[|es|] == w
  }

  lemma ReachNext(w: World, e: Step)
    requires Reachable(w) && Enabled(w, e)
    ensures Reachable(Apply(w, e))
  {
    var ws: seq<World>, es: seq<Step> :| Run(ws, es) && ws[|es|] == w;
    var vs, fs := ws + [Apply(w, e)], es + [e];
    forall k {:trigger fs[k]} | 0 <= k < |fs| ensures Enabled(vs[k], fs[k]) && vs[k + 1] == Apply(vs[k], fs[k]) {
      assert fs[k] == if k < |es| then es[k] else e;
      assert vs[k] == ws[k];
    }
    assert Run(vs, fs) && vs[|fs|] == Apply(w, e);
  }

  const NOTHING: map<User, set<IP>> := map[]
  const DEVICES: map<User, set<IP>> := map[7 := {"a"}]

  /** What the index and the fence of node 1 say while nothing has been reported. */
  predicate Quiet(w: World, generation: int) {
    w.store.clock == 0 && w.seen == map[] && NodeUsers(w.store, 1) == {} && GenerationOf(w.store, 1) == generation
  }

  lemma Take(v: World, e: Step) returns (w: World)
    requires Reachable(v) && Enabled(v, e)
    ensures Reachable(w) && w == Apply(v, e)
    ensures forall i :: i in v.calls ==>
      i in w.calls && w.calls[i] == v.calls[i].(phase := Watched(Moved(v, e, i), w.store, v.calls[i].node))
    ensures w.store == StoreAfter(v, e) && w.seen == SeenAfter(v, e)
  {
    ReachNext(v, e);
    w := Apply(v, e);
  }

  lemma ClearBegins() returns (w: World)
    ensures Reachable(w) && Quiet(w, 0) && w.calls == map[0 := Call(1, NOTHING, true, true, 0, Started)]
  {
    w := World(Store(0, map[], map[], map[], map[], map[]), map[], map[]);
    assert Run([w], []) && [w][0] == w;
    w := Take(w, BeginClear(0, 1));
  }

  /** A clear of node 1, call 0, is scanning an empty index. */
  lemma ClearScans(v: World) returns (w: World)
    requires Reachable(v) && Quiet(v, 0) && v.calls == map[0 := Call(1, NOTHING, true, true, 0, Started)]
    ensures Reachable(w) && Quiet(w, 1) && w.calls.Keys == {0}
    ensures w.calls[0] == Call(1, NOTHING, true, true, 0, Scanning(1, {}))
  {
    w := Take(v, BumpGeneration(0));
    assert w.calls[0].phase == Bumped(1);
    w := Take(w, BeginScan(0));
  }

  lemma ReportBegins(v: World) returns (w: World)
    requires Reachable(v) && Quiet(v, 1) && v.calls.Keys == {0}
    requires v.calls[0] == Call(1, NOTHING, true, true, 0, Scanning(1, {}))
    ensures Reachable(w) && Quiet(w, 1) && w.calls.Keys == {0, 1} && w.calls[0] == v.calls[0]
    ensures w.calls[1] == Call(1, DEVICES, false, false, 0, Started)
  {
    w := Take(v, Begin(1, 1, DEVICES, false));
  }

  /** A report of the node, call 1, is about to run its one script. */
  predicate Overtaken(w: World) {
    && Quiet(w, 2) && w.calls.Keys == {0, 1}
    && w.calls[0] == Call(1, NOTHING, true, true, 0, Scanning(1, {}))
    && w.calls[1] == Call(1, DEVICES, false, false, 0, Writing(2, DEVICES, [7], {}, false))
  }

  lemma ReportOvertakes(v: World) returns (w: World)
    requires Reachable(v) && Quiet(v, 1) && v.calls.Keys == {0, 1}
    requires v.calls[0] == Call(1, NOTHING, true, true, 0, Scanning(1, {}))
    requires v.calls[1] == Call(1, DEVICES, false, false, 0, Started)
    ensures Reachable(w) && Overtaken(w)
  {
    w := Take(v, BumpGeneration(1));
    w := ReportPlans(w);
  }

  lemma ReportPlans(v: World) returns (w: World)
    requires Reachable(v) && Quiet(v, 2) && v.calls.Keys == {0, 1}
    requires v.calls[0] == Call(1, NOTHING, true, true, 0, Scanning(1, {}))
    requires v.calls[1] == Call(1, DEVICES, false, false, 0, Bumped(2))
    ensures Reachable(w) && Overtaken(w)
  {
    assert (set u: User | u in [7]) == DEVICES.Keys;
    assert PlanFor(v.calls[1], {}) == DEVICES;
    w := Take(v, PlanSnapshot(1, [7]));
  }

  /** The report has been accepted, and the clear's scan ends without a user: it has no script left that could tell it
      that it is superseded, and goes on to delete the index. */
  lemma ClearGoesOn(v: World) returns (w: World)
    requires Reachable(v) && Overtaken(v)
    ensures Reachable(w) && w.store.clock == 0 && 0 in w.calls
    ensures w.calls[0] == Call(1, NOTHING, true, true, 0, Writing(1, NOTHING, [], {}, false))
    ensures !Current(w.store, w.calls[0]) && (1, 7) in w.seen && w.seen[(1, 7)] == Report({"a"}, 0)
  {
    w := Take(v, RunScript(1));
    assert w.calls[0].phase == Scanning(1, {});
    assert (set u: User | u in []) == NOTHING.Keys + {};
    w := Take(w, EndScan(0, {}, []));
    assert PlanFor(v.calls[0], {}) == NOTHING;
  }

  /** There is a run that leads a clear to its deletion without any refusal, and that deletion would lose a live report:
      no later clear or replacement of the node would find user 7. */
  lemma UnfencedDelete() returns (w: World)
    ensures Reachable(w) && 0 in w.calls && w.calls[0].clear && w.calls[0].phase.Writing?
    ensures w.calls[0].phase.todo == [] && !w.calls[0].phase.refused && !Current(w.store, w.calls[0])
    ensures Agrees(w.store, w.seen) && !Agrees(w.store.(nodeUsers := w.store.nodeUsers - {1}), w.seen)
  {
    w := ClearBegins();
    w := ClearScans(w);
    w := ReportBegins(w);
    w := ReportOvertakes(w);
    w := ClearGoesOn(w);
    var ws: seq<World>, es: seq<Step> :| Run(ws, es) && ws[|es|] == w;
    RunInv(ws, es, |es|);
    assert (1, 7) in w.seen && (1, 7).0 == 1 && Live(w.seen[(1, 7)].time, w.store.clock);
    IndexDeleteIsSafeIff(w.store, w.seen, 1);
  }
}
