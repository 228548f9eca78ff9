/** Per-key mutexes that exist only while somebody needs them, taken by any number of threads, each
    of which may lock several keys in sorted order. The bodies guarded by the table mutex are single
    steps; waiting for, taking and releasing a key's own mutex are steps of their own. */
module KeyedLocks {
  import opened Collections
  import opened Ordering

  type Key = string
  type Thread = nat
  type Id = nat

  /** One mutex object, for the key it was created for. */
  datatype Mutex = Mutex(key: Key, refs: int, owner: Option<Thread>)

  datatype Phase =
    | Between
    | Waiting(item: Id)  // counted, not yet locked
    | Leaving(item: Id)  // unlocked, still counted

  /** A thread that locks `keys` in order and, once `releasing`, unlocks them in reverse. */
  datatype Actor = Actor(keys: seq<Key>, held: seq<Id>, phase: Phase, releasing: bool)

  datatype World = World(items: map<Key, Id>, mutexes: map<Id, Mutex>, actors: map<Thread, Actor>)

  datatype Step =
    | Register(thread: Thread, id: Id)  // `id` names the mutex made if the key has none
    | Take(thread: Thread)
    | Turn(thread: Thread)
    | Unlock(thread: Thread)
    | Unregister(thread: Thread)

  predicate Finished(a: Actor) {
    a.releasing && a.held == [] && a.phase.Between?
  }

  predicate Enabled(w: World, e: Step) {
    && e.thread in w.actors
    && var a := w.actors[e.thread];
       match e
       case Register(_, id) => a.phase.Between? && !a.releasing && |a.held| < |a.keys| && id !in w.mutexes
                               && (a.keys[|a.held|] in w.items ==> w.items[a.keys[|a.held|]] in w.mutexes)
       case Take(_) => a.phase.Waiting? && a.phase.item in w.mutexes && w.mutexes[a.phase.item].owner.None?
       case Turn(_) => a.phase.Between? && !a.releasing && |a.held| == |a.keys|
       case Unlock(_) => a.phase.Between? && a.releasing && a.held != [] && a.held[|a.held| - 1] in w.mutexes
       case Unregister(_) => a.phase.Leaving? && a.phase.item in w.mutexes
  }

  function Apply(w: World, e: Step): World
    requires Enabled(w, e)
  {
    var t := e.thread;
    var a := w.actors[t];
    match e
    case Register(_, id) =>
      var k := a.keys[|a.held|];
      if k in w.items then
        var i := w.items[k];
        w.(mutexes := w.mutexes[i := w.mutexes[i].(refs := w.mutexes[i].refs + 1)],
           actors := w.actors[t := a.(phase := Waiting(i))])
      else
        World(w.items[k := id], w.mutexes[id := Mutex(k, 1, None)], w.actors[t := a.(phase := Waiting(id))])
    case Take(_) =>
      var i := a.phase.item;
      w.(mutexes := w.mutexes[i := w.mutexes[i].(owner := Some(t))],
         actors := w.actors[t := a.(held := a.held + [i], phase := Between)])
    case Turn(_) => w.(actors := w.actors[t := a.(releasing := true)])
    case Unlock(_) =>
      var n := |a.held| - 1;
      w.(mutexes := w.mutexes[a.held[n] := w.mutexes[a.held[n]].(owner := None)],
         actors := w.actors[t := a.(held := a.held[..n], phase := Leaving(a.held[n]))])
    case Unregister(_) =>
      var i := a.phase.item;
      var m := w.mutexes[i].(refs := w.mutexes[i].refs - 1);
      World(if m.refs == 0 then w.items - {m.key} else w.items, w.mutexes[i := m], w.actors[t := a.(phase := Between)])
  }

  ghost predicate Initial(w: World) {
    && w.items == map[] && w.mutexes == map[]
    && forall t :: t in w.actors ==>
      Sorted(w.actors[t].keys) && w.actors[t].held == [] && w.actors[t].phase.Between? && !w.actors[t].releasing
  }

  ghost predicate Run(ws: seq<World>, es: seq<Step>) {
    && |ws| == |es| + 1 && Initial(ws[0])
    && forall k {:trigger es[k]} :: 0 <= k < |es| ==> Enabled(ws[k], es[k]) && ws[k + 1] == Apply(ws[k], es[k])
  }

  predicate Uses(a: Actor, id: Id) {
    id in a.held || a.phase == Waiting(id) || a.phase == Leaving(id)
  }

  /** Threads waiting on, holding or still releasing a mutex. */
  function Users(w: World, id: Id): set<Thread> {
    set t | t in w.actors && Uses(w.actors[t], id)
  }

  ghost predicate Counted(w: World) {
    forall id :: id in w.mutexes ==> w.mutexes[id].refs == |Users(w, id)|
  }

  /** The table lists exactly the mutexes in use. */
  ghost predicate Listed(w: World) {
    && (forall k :: k in w.items ==>
      w.items[k] in w.mutexes && w.mutexes[w.items[k]].key == k && w.mutexes[w.items[k]].refs > 0)
    && (forall id :: id in w.mutexes && w.mutexes[id].refs != 0 ==>
      w.mutexes[id].key in w.items && w.items[w.mutexes[id].key] == id)
  }

  ghost predicate Owned(w: World) {
    && (forall id :: id in w.mutexes && w.mutexes[id].owner.Some? ==>
      w.mutexes[id].owner.value in w.actors && id in w.actors[w.mutexes[id].owner.value].held)
    && (forall t, id :: t in w.actors && id in w.actors[t].held ==> id in w.mutexes && w.mutexes[id].owner == Some(t))
  }

  /** A thread is where its key list says: it holds a prefix, and is entering or leaving the next key. */
  ghost predicate Placed(w: World, a: Actor) {
    && Sorted(a.keys) && |a.held| <= |a.keys|
    && (forall i :: 0 <= i < |a.held| ==> a.held[i] in w.mutexes && w.mutexes[a.held[i]].key == a.keys[i])
    && (!a.phase.Between? ==>
      |a.held| < |a.keys| && a.phase.item in w.mutexes && w.mutexes[a.phase.item].key == a.keys[|a.held|])
    && (a.phase.Waiting? ==> !a.releasing) && (a.phase.Leaving? ==> a.releasing)
  }

  ghost predicate Inv(w: World) {
    && Counted(w) && Listed(w) && Owned(w)
    && forall t :: t in w.actors ==> Placed(w, w.actors[t])
  }

  /** A thread is involved with a mutex in at most one way. */
  lemma UsesOnce(w: World, a: Actor, id: Id)
    requires Placed(w, a)
    ensures forall i, j :: 0 <= i < j < |a.held| ==> a.held[i] != a.held[j]
    ensures !a.phase.Between? && a.phase.item == id ==> id !in a.held
  {
    forall i | 0 <= i < |a.keys| ensures !Below(a.keys[i], a.keys[i]) {
      BelowIrreflexive(a.keys[i]);
    }
    forall i, j | 0 <= i < j < |a.held| ensures a.held[i] != a.held[j] {
      assert Below(a.keys[i], a.keys[j]);
    }
    if !a.phase.Between? {
      forall i | 0 <= i < |a.held| ensures a.held[i] != a.phase.item {
        assert Below(a.keys[i], a.keys[|a.held|]);
      }
    }
  }

  lemma InitialInv(w: World)
    requires Initial(w)
    ensures Inv(w)
  {
  }

  lemma StepPlacedOne(w: World, e: Step, t: Thread)
    requires Listed(w) && Enabled(w, e) && t in w.actors && Placed(w, w.actors[t])
    ensures Placed(Apply(w, e), Apply(w, e).actors[t])
  {
  }

  lemma StepPlaced(w: World, e: Step)
    requires Inv(w) && Enabled(w, e)
    ensures forall t :: t in Apply(w, e).actors ==> Placed(Apply(w, e), Apply(w, e).actors[t])
  {
    var w' := Apply(w, e);
    forall t | t in w'.actors ensures Placed(w', w'.actors[t]) {
      StepPlacedOne(w, e, t);
    }
  }

  lemma StepHeld(w: World, e: Step, u: Thread, id: Id)
    requires Owned(w) && Enabled(w, e) && Placed(w, w.actors[e.thread])
    requires u in Apply(w, e).actors && id in Apply(w, e).actors[u].held
    ensures id in Apply(w, e).mutexes && Apply(w, e).mutexes[id].owner == Some(u)
  {
    if e.Unlock? && u == e.thread {
      var a := w.actors[u];
      var n := |a.held| - 1;
      UsesOnce(w, a, a.held[n]);
      var i :| 0 <= i < n && a.held[i] == id;
      assert a.held[i] != a.held[n];
    }
  }

  lemma StepOwner(w: World, e: Step, id: Id)
    requires Owned(w) && Enabled(w, e) && Placed(w, w.actors[e.thread])
    requires id in Apply(w, e).mutexes && Apply(w, e).mutexes[id].owner.Some?
    ensures var t := Apply(w, e).mutexes[id].owner.value; t in Apply(w, e).actors && id in Apply(w, e).actors[t].held
  {
    var a, a' := w.actors[e.thread], Apply(w, e).actors[e.thread];
    if e.Unlock? && id in a.held {
      var n := |a.held| - 1;
      var i :| 0 <= i <= n && a.held[i] == id;
      assert i < n;
      assert a'.held[i] == id;
    } else if e.Take? {
      assert a'.held[|a.held|] == a.phase.item;
      assert forall i :: 0 <= i < |a.held| ==> a'.held[i] == a.held[i];
    }
  }

  lemma StepOwned(w: World, e: Step)
    requires Owned(w) && Enabled(w, e) && Placed(w, w.actors[e.thread])
    ensures Owned(Apply(w, e))
  {
    var w' := Apply(w, e);
    forall u, id | u in w'.actors && id in w'.actors[u].held
      ensures id in w'.mutexes && w'.mutexes[id].owner == Some(u)
    {
      StepHeld(w, e, u, id);
    }
    forall id | id in w'.mutexes && w'.mutexes[id].owner.Some?
      ensures w'.mutexes[id].owner.value in w'.actors && id in w'.actors[w'.mutexes[id].owner.value].held
    {
      StepOwner(w, e, id);
    }
  }

  /** A thread is counted in by registering, counted out by unregistering, and by nothing else. */
  lemma StepUses(w: World, e: Step, id: Id)
    requires Listed(w) && Enabled(w, e) && Placed(w, w.actors[e.thread])
    ensures var t := e.thread; var a := w.actors[t]; var a' := Apply(w, e).actors[t];
      if e.Register? && a'.phase.item == id then Uses(a', id) && !Uses(a, id)
      else if e.Unregister? && a.phase.item == id then !Uses(a', id) && Uses(a, id)
      else Uses(a', id) <==> Uses(a, id)
  {
    var a, a' := w.actors[e.thread], Apply(w, e).actors[e.thread];
    UsesOnce(w, a, id);
    if e.Register? {
      StepPlacedOne(w, e, e.thread);
      UsesOnce(Apply(w, e), a', id);
    } else if e.Unlock? {
      assert a.held == a.held[..|a.held| - 1] + [a.held[|a.held| - 1]];
    }
  }

  lemma StepUsers(w: World, e: Step, id: Id)
    requires Inv(w) && Enabled(w, e)
    ensures var a := w.actors[e.thread]; var after := Users(Apply(w, e), id);
      if e.Register? && Apply(w, e).actors[e.thread].phase.item == id
      then after == Users(w, id) + {e.thread} && e.thread !in Users(w, id)
      else if e.Unregister? && a.phase.item == id then after == Users(w, id) - {e.thread} && e.thread in Users(w, id)
      else after == Users(w, id)
  {
    StepUses(w, e, id);
    var w' := Apply(w, e);
    assert forall u :: u in w.actors && u != e.thread ==> w'.actors[u] == w.actors[u];
    assert forall u :: u in Users(w', id) <==> if u == e.thread then Uses(w'.actors[u], id) else u in Users(w, id);
    if Uses(w'.actors[e.thread], id) <==> Uses(w.actors[e.thread], id) {
      assert forall u :: u in Users(w', id) <==> u in Users(w, id);
    } else if e.Register? {
      assert forall u :: u in Users(w', id) <==> u in Users(w, id) + {e.thread};
    } else {
      assert forall u :: u in Users(w', id) <==> u in Users(w, id) - {e.thread};
    }
  }

  lemma StepCounted(w: World, e: Step)
    requires Inv(w) && Enabled(w, e)
    ensures Counted(Apply(w, e))
  {
    var w' := Apply(w, e);
    forall id | id in w'.mutexes ensures w'.mutexes[id].refs == |Users(w', id)| {
      StepCountedOne(w, e, id);
    }
  }

  lemma StepCountedOne(w: World, e: Step, id: Id)
    requires Inv(w) && Enabled(w, e) && id in Apply(w, e).mutexes
    ensures Apply(w, e).mutexes[id].refs == |Users(Apply(w, e), id)|
  {
    StepUsers(w, e, id);
    if id !in w.mutexes {
      NobodyUses(w, id);
    } else {
      assert w.mutexes[id].refs == |Users(w, id)|;
      StepRefs(w, e, id);
    }
  }

  /** The count of a mutex moves with the step that registers or unregisters a thread with it, and with no other. */
  lemma StepRefs(w: World, e: Step, id: Id)
    requires Listed(w) && Enabled(w, e) && id in w.mutexes && Placed(w, w.actors[e.thread])
    ensures id in Apply(w, e).mutexes
    ensures Apply(w, e).mutexes[id].refs == w.mutexes[id].refs +
      if e.Register? && Apply(w, e).actors[e.thread].phase.item == id then 1
      else if e.Unregister? && w.actors[e.thread].phase.item == id then -1
      else 0
  {
  }

  lemma NobodyUses(w: World, id: Id)
    requires Inv(w) && id !in w.mutexes
    ensures Users(w, id) == {}
  {
    forall t | t in w.actors ensures !Uses(w.actors[t], id) {
      assert Placed(w, w.actors[t]);
    }
  }

  lemma InUseCounts(w: World, t: Thread, id: Id)
    requires Counted(w) && id in w.mutexes && t in w.actors && Uses(w.actors[t], id)
    ensures w.mutexes[id].refs > 0
  {
    assert t in Users(w, id);
    SubsetSize({t}, Users(w, id));
  }

  lemma StepListed(w: World, e: Step)
    requires Inv(w) && Enabled(w, e)
    ensures Listed(Apply(w, e))
  {
    var a := w.actors[e.thread];
    assert Placed(w, a);
    if e.Unregister? {
      InUseCounts(w, e.thread, a.phase.item);
    }
  }

  lemma StepInv(w: World, e: Step)
    requires Inv(w) && Enabled(w, e)
    ensures Inv(Apply(w, e))
  {
    StepPlaced(w, e);
    StepOwned(w, e);
    StepCounted(w, e);
    StepListed(w, e);
  }

  lemma {:induction false} RunInv(ws: seq<World>, es: seq<Step>, k: nat)
    requires Run(ws, es) && k < |ws|
    ensures Inv(ws[k])
  {
    if k == 0 {
      InitialInv(ws[0]);
    } else {
      RunInv(ws, es, k - 1);
      StepInv(ws[k - 1], es[k - 1]);
    }
  }

  predicate Holds(w: World, t: Thread, k: Key) {
    t in w.actors && exists i :: 0 <= i < |w.actors[t].held| && w.actors[t].held[i] in w.mutexes
                                 && w.mutexes[w.actors[t].held[i]].key == k
  }

  /** In every state of every run, two threads never hold one key. */
  lemma KeyedMutualExclusion(ws: seq<World>, es: seq<Step>, n: nat, t: Thread, u: Thread, k: Key)
    requires Run(ws, es) && n < |ws| && Holds(ws[n], t, k) && Holds(ws[n], u, k)
    ensures t == u
  {
    RunInv(ws, es, n);
    HolderOwns(ws[n], t, k);
    HolderOwns(ws[n], u, k);
  }

  /** A thread that holds a key owns the mutex the table has for it. */
  lemma HolderOwns(w: World, t: Thread, k: Key)
    requires Inv(w) && Holds(w, t, k)
    ensures k in w.items && w.items[k] in w.mutexes && w.mutexes[w.items[k]].owner == Some(t)
  {
    var i :| 0 <= i < |w.actors[t].held| && w.actors[t].held[i] in w.mutexes && w.mutexes[w.actors[t].held[i]].key == k;
    HeldIsListed(w, t, w.actors[t].held[i]);
  }

  predicate Alive(w: World, id: Id, k: Key) {
    id in w.mutexes && w.mutexes[id].key == k && Users(w, id) != {}
  }

  /** In every state of every run, the reference count of a mutex is the number of threads waiting on,
      holding or releasing it, and a key has a table entry exactly while one mutex of it, and then
      only that one, is in use. */
  lemma TableIsExact(ws: seq<World>, es: seq<Step>, n: nat, id: Id, k: Key)
    requires Run(ws, es) && n < |ws|
    ensures id in ws[n].mutexes ==> ws[n].mutexes[id].refs == |Users(ws[n], id)|
    ensures Alive(ws[n], id, k) <==> k in ws[n].items && ws[n].items[k] == id
  {
    RunInv(ws, es, n);
    var w := ws[n];
    if Alive(w, id, k) {
      InUseCounts(w, Pick(Users(w, id)), id);
    }
  }

  lemma HeldIsListed(w: World, t: Thread, id: Id)
    requires Inv(w) && t in w.actors && id in w.actors[t].held
    ensures id in w.mutexes && w.mutexes[id].key in w.items && w.items[w.mutexes[id].key] == id
  {
    InUseCounts(w, t, id);
  }

  // Deadlock freedom and termination.

  ghost predicate CanStep(w: World, t: Thread) {
    exists e: Step :: e.thread == t && Enabled(w, e)
  }

  /** A thread is stuck only behind the owner of the mutex it waits for. */
  predicate Blocked(w: World, t: Thread) {
    && t in w.actors && w.actors[t].phase.Waiting? && w.actors[t].phase.item in w.mutexes
    && w.mutexes[w.actors[t].phase.item].owner.Some?
  }

  lemma FreshId(w: World)
    ensures exists id: Id :: id !in w.mutexes
  {
    var id := Above(w.mutexes.Keys);
    assert id !in w.mutexes;
  }

  ghost function Above(ids: set<Id>): (r: Id)
    ensures forall i :: i in ids ==> i < r
  {
    if ids == {} then 0
    else
      var i := Pick(ids);
      var r := Above(ids - {i});
      assert forall j :: j in ids ==> j == i || j in ids - {i};
      if i < r then r else i + 1
  }

  lemma UnblockedCanStep(w: World, t: Thread)
    requires Inv(w) && t in w.actors && !Finished(w.actors[t]) && !Blocked(w, t)
    ensures CanStep(w, t)
  {
    var a := w.actors[t];
    assert Placed(w, a);
    match a.phase
    case Waiting(_) => assert Enabled(w, Take(t));
    case Leaving(_) => assert Enabled(w, Unregister(t));
    case Between =>
      if a.releasing {
        assert Enabled(w, Unlock(t));
      } else if |a.held| == |a.keys| {
        assert Enabled(w, Turn(t));
      } else {
        FreshId(w);
        var id :| id !in w.mutexes;
        assert Enabled(w, Register(t, id));
      }
  }

  function Wanted(w: World, t: Thread): Key
    requires t in w.actors && |w.actors[t].held| < |w.actors[t].keys|
  {
    w.actors[t].keys[|w.actors[t].held|]
  }

  /** The owner of what a blocked thread wants is itself unfinished, and, if blocked, wants a later key. */
  lemma OwnerWantsLater(w: World, t: Thread)
    requires Inv(w) && Blocked(w, t)
    ensures var u := w.mutexes[w.actors[t].phase.item].owner.value;
      && u in w.actors && !Finished(w.actors[u])
      && |w.actors[t].held| < |w.actors[t].keys|
      && (Blocked(w, u) ==> |w.actors[u].held| < |w.actors[u].keys| && Below(Wanted(w, t), Wanted(w, u)))
  {
    var id := w.actors[t].phase.item;
    var u := w.mutexes[id].owner.value;
    assert Placed(w, w.actors[t]) && Placed(w, w.actors[u]);
    var i :| 0 <= i < |w.actors[u].held| && w.actors[u].held[i] == id;
    if Blocked(w, u) {
      assert Below(w.actors[u].keys[i], w.actors[u].keys[|w.actors[u].held|]);
    }
  }

  function Wants(w: World, ts: set<Thread>): set<Key>
    requires forall t :: t in ts ==> t in w.actors && |w.actors[t].held| < |w.actors[t].keys|
  {
    set t | t in ts :: Wanted(w, t)
  }

  ghost function Latest(keys: set<Key>): (r: Key)
    requires keys != {}
    ensures r in keys && forall k :: k in keys ==> !Below(r, k)
  {
    var x := Pick(keys);
    BelowIrreflexive(x);
    if keys - {x} == {} then
      assert forall k :: k in keys ==> k == x || k in keys - {x};
      x
    else
      var m := Latest(keys - {x});
      assert forall k :: k in keys ==> k == x || k in keys - {x};
      if Below(m, x) then
        assert forall k :: k in keys && Below(x, k) ==> Below(m, k) by {
          forall k | k in keys && Below(x, k) ensures Below(m, k) { BelowTransitive(m, x, k); }
        }
        x
      else m
  }

  /** In every state of every run with an unfinished thread, some thread can step. */
  lemma DeadlockFree(ws: seq<World>, es: seq<Step>, n: nat)
    requires Run(ws, es) && n < |ws| && exists t :: t in ws[n].actors && !Finished(ws[n].actors[t])
    ensures exists t :: t in ws[n].actors && CanStep(ws[n], t)
  {
    RunInv(ws, es, n);
    var w := ws[n];
    var t :| t in w.actors && !Finished(w.actors[t]);
    var blocked := set u | u in w.actors && Blocked(w, u);
    if !Blocked(w, t) {
      UnblockedCanStep(w, t);
    } else {
      forall u | u in blocked ensures |w.actors[u].held| < |w.actors[u].keys| {
        OwnerWantsLater(w, u);
      }
      assert t in blocked && Wanted(w, t) in Wants(w, blocked);
      var latest := Latest(Wants(w, blocked));
      var u :| u in blocked && Wanted(w, u) == latest;
      OwnerWantsLater(w, u);
      var v := w.mutexes[w.actors[u].phase.item].owner.value;
      forall x | x in blocked ensures !Below(latest, Wanted(w, x)) {
        assert Wanted(w, x) in Wants(w, blocked);
      }
      assert v !in blocked;
      UnblockedCanStep(w, v);
    }
  }

  /** Steps a thread still has to make. */
  function Work(a: Actor): int {
    if a.releasing then 2 * |a.held| + (if a.phase.Leaving? then 1 else 0)
    else 2 * (|a.keys| - |a.held|) - (if a.phase.Waiting? then 1 else 0) + 1 + 2 * |a.keys|
  }

  ghost function Total(actors: map<Thread, Actor>): int
    decreases |actors|
  {
    if actors == map[] then 0
    else
      assert actors.Keys != {} by { assert actors.Keys == {} ==> actors == map[]; }
      var t := Pick(actors.Keys);
      Work(actors[t]) + Total(actors - {t})
  }

  lemma {:induction false} TotalSplits(actors: map<Thread, Actor>, t: Thread)
    requires t in actors
    ensures Total(actors) == Work(actors[t]) + Total(actors - {t})
    decreases |actors|
  {
    assert actors.Keys != {};
    var u := Pick(actors.Keys);
    assert Total(actors) == Work(actors[u]) + Total(actors - {u});
    if u != t {
      TotalSplits(actors - {u}, t);
      TotalSplits(actors - {t}, u);
      assert actors - {u} - {t} == actors - {t} - {u};
    }
  }

  lemma {:induction false} TotalIsWork(w: World)
    requires Inv(w)
    ensures Total(w.actors) >= 0
  {
    TotalNonNegative(w, w.actors);
  }

  lemma {:induction false} TotalNonNegative(w: World, actors: map<Thread, Actor>)
    requires forall t :: t in actors ==> Placed(w, actors[t])
    ensures Total(actors) >= 0
    decreases |actors|
  {
    if actors != map[] {
      assert actors.Keys != {} by { assert actors.Keys == {} ==> actors == map[]; }
      var t := Pick(actors.Keys);
      assert Placed(w, actors[t]);
      TotalNonNegative(w, actors - {t});
    }
  }

  lemma StepWorks(w: World, e: Step)
    requires Inv(w) && Enabled(w, e)
    ensures Total(Apply(w, e).actors) == Total(w.actors) - 1
  {
    TotalUpdate(w.actors, e.thread, Apply(w, e).actors[e.thread]);
  }

  lemma TotalUpdate(actors: map<Thread, Actor>, t: Thread, a: Actor)
    requires t in actors
    ensures Total(actors[t := a]) == Total(actors) - Work(actors[t]) + Work(a)
  {
    TotalSplits(actors, t);
    TotalSplits(actors[t := a], t);
    assert actors[t := a] - {t} == actors - {t};
  }

  lemma WorkLeft(ws: seq<World>, es: seq<Step>, n: nat)
    requires Run(ws, es) && n < |ws|
    ensures Total(ws[n].actors) >= 0
  {
    RunInv(ws, es, n);
    TotalIsWork(ws[n]);
  }

  lemma OneStepLess(ws: seq<World>, es: seq<Step>, n: nat)
    requires Run(ws, es) && n < |es|
    ensures Total(ws[n + 1].actors) == Total(ws[n].actors) - 1
  {
    RunInv(ws, es, n);
    StepWorks(ws[n], es[n]);
  }

  /** Every run ends: it has no more steps than its threads had to make at the start. */
  lemma {:induction false} RunsEnd(ws: seq<World>, es: seq<Step>, n: nat)
    requires Run(ws, es) && n < |ws|
    ensures Total(ws[n].actors) == Total(ws[0].actors) - n
    ensures n <= Total(ws[0].actors)
  {
    WorkLeft(ws, es, n);
    if n > 0 {
      RunsEnd(ws, es, n - 1);
      OneStepLess(ws, es, n - 1);
    }
  }

  /** A run that can go no further has released everything: no thread holds a key, none is counted
      anywhere, and the table is empty again. */
  lemma StuckMeansReleased(ws: seq<World>, es: seq<Step>, n: nat)
    requires Run(ws, es) && n < |ws| && forall t :: t in ws[n].actors ==> !CanStep(ws[n], t)
    ensures forall t :: t in ws[n].actors ==> Finished(ws[n].actors[t])
    ensures ws[n].items == map[]
  {
    var w := ws[n];
    RunInv(ws, es, n);
    if exists t :: t in w.actors && !Finished(w.actors[t]) {
      DeadlockFree(ws, es, n);
      assert false;
    }
    forall id ensures Users(w, id) == {} {
      assert forall t :: t in w.actors ==> !Uses(w.actors[t], id);
    }
    assert forall k :: k !in w.items;
  }

  /** Why repeated keys must be refused: a thread that locks one key twice waits for itself for ever. */
  lemma RepeatedKeyDeadlocks(k: Key)
    ensures var w := World(map[], map[], map[0 := Actor([k, k], [], Between, false)]);
      && Enabled(w, Register(0, 0)) && var w1 := Apply(w, Register(0, 0));
         Enabled(w1, Take(0)) && var w2 := Apply(w1, Take(0));
         Enabled(w2, Register(0, 1)) && var w3 := Apply(w2, Register(0, 1));
         !Finished(w3.actors[0]) && !CanStep(w3, 0)
  {
  }

  /** The keys a clone locks: refused when invalid or repeated, otherwise all of them, sorted. */
  method AcquisitionOrder(keys: seq<Key>, valid: Key -> bool) returns (r: Option<seq<Key>>)
    ensures r.Some? <==>
      (forall k :: k in keys ==> valid(k)) && forall i, j :: 0 <= i < j < |keys| ==> keys[i] != keys[j]
    ensures r.Some? ==> Sorted(r.value) && forall k :: k in r.value <==> k in keys
  {
    var seen: set<Key> := {};
    for n := 0 to |keys|
      invariant forall k :: k in seen <==> k in keys[..n]
      invariant forall k :: k in keys[..n] ==> valid(k)
      invariant forall i, j :: 0 <= i < j < n ==> keys[i] != keys[j]
    {
      assert keys[n] in keys;
      if !valid(keys[n]) || keys[n] in seen {
        return None;
      }
      assert forall i :: 0 <= i < n ==> keys[i] in keys[..n];
      seen := seen + {keys[n]};
    }
    assert keys[..|keys|] == keys;
    var ordered := SortStrings(seen);
    r := Some(ordered);
  }
}
