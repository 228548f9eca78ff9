/** Any number of device replacements and node clears running at once, interleaved with listings, user clears, the clock
    and the loss of expired keys. A replacement bumps the generation of its node, scans the node index when it replaces
    everything, and then runs one script per affected user. A node clear is a replacement of everything by nothing that
    ends by deleting the index of the node. */
module DeviceFence {
  import opened DeviceStore
  import opened Ordering

  datatype Phase =
    | Started
    | Bumped(generation: int)
      // `present`: the index members that have been there ever since the scan began
    | Scanning(generation: int, present: set<User>)
      // `todo`: users whose script has not run; `dropped`: users cleared after theirs did
    | Writing(generation: int, plan: map<User, set<IP>>, todo: seq<User>, dropped: set<User>, refused: bool)
    | Finished

  /** `clear`: a node clear, whose snapshot is empty. */
  datatype Call = Call(node: Node, snapshot: map<User, set<IP>>, replaceAll: bool, clear: bool, at: int, phase: Phase)

  datatype World = World(store: Store, seen: Seen, calls: map<nat, Call>)

  datatype Step =
    | Advance(clock: nat)
    | LoseKey(lapse: Lapse)
    | Begin(id: nat, node: Node, snapshot: map<User, set<IP>>, replaceAll: bool)
    | BeginClear(id: nat, node: Node)
    | BumpGeneration(id: nat)
    | BeginScan(id: nat)
    | EndScan(id: nat, found: set<User>, order: seq<User>)
    | PlanSnapshot(id: nat, order: seq<User>)
    | RunScript(id: nat)
    | DeleteIndex(id: nat)
    | End(id: nat)
    | CleanUp(user: User, stale: set<Field>, quiet: set<Node>)
    | ClearUserDevices(user: User, nodes: set<Node>)

  predicate InFlight(c: Call) {
    c.phase.Bumped? || c.phase.Scanning? || c.phase.Writing?
  }

  predicate Current(s: Store, c: Call)
    requires InFlight(c)
  {
    c.phase.generation == GenerationOf(s, c.node)
  }

  function Want(c: Call, u: User): set<IP> {
    if u in c.snapshot then c.snapshot[u] else {}
  }

  function PlanFor(c: Call, found: set<User>): map<User, set<IP>> {
    map u | u in c.snapshot.Keys + found :: Want(c, u)
  }

  ghost predicate Enabled(w: World, e: Step) {
    match e
    case Advance(clock) => w.store.clock <= clock
    case LoseKey(l) =>
      // generation keys are assumed to outlive the operations that read them
      && CanLapse(w.store, l)
      && (l.Generation? ==> forall i :: i in w.calls && InFlight(w.calls[i]) ==> w.calls[i].node != l.node)
    case Begin(i, _, _, _) => i !in w.calls
    case BeginClear(i, _) => i !in w.calls
    case BumpGeneration(i) => i in w.calls && w.calls[i].phase.Started?
    case BeginScan(i) => i in w.calls && w.calls[i].phase.Bumped? && w.calls[i].replaceAll
    case EndScan(i, found, order) =>
      // a scan returns at least the members present throughout it
      && i in w.calls && w.calls[i].phase.Scanning? && w.calls[i].phase.present <= found
      && Enumerates(order, w.calls[i].snapshot.Keys + found)
    case PlanSnapshot(i, order) =>
      && i in w.calls && w.calls[i].phase.Bumped? && !w.calls[i].replaceAll
      && Enumerates(order, w.calls[i].snapshot.Keys)
    case RunScript(i) => i in w.calls && w.calls[i].phase.Writing? && w.calls[i].phase.todo != []
                         && w.calls[i].phase.todo[0] in w.calls[i].phase.plan
    case DeleteIndex(i) =>
      // nothing is assumed to supersede a clear between its last script and this
      && i in w.calls && w.calls[i].phase.Writing? && w.calls[i].clear && w.calls[i].phase.todo == []
      && Current(w.store, w.calls[i])
    case End(i) =>
      && i in w.calls && w.calls[i].phase.Writing?
      && (w.calls[i].phase.refused || (w.calls[i].phase.todo == [] && !w.calls[i].clear))
    // what a listing found stale is assumed not to have been reported again before it is cleaned up
    case CleanUp(u, stale, quiet) => StillStale(w.store, w.seen, u, stale, quiet)
    // the nodes may have been read at any time before
    case ClearUserDevices(_, _) => true
  }

  function StoreAfter(w: World, e: Step): Store
    requires Enabled(w, e)
  {
    match e
    case Advance(clock) => w.store.(clock := clock)
    case LoseKey(l) => Drop(w.store, l)
    case BumpGeneration(i) => Bump(w.store, w.calls[i].node)
    case RunScript(i) =>
      var c := w.calls[i];
      Replace(w.store, c.node, c.phase.todo[0], c.phase.plan[c.phase.todo[0]], c.at, c.phase.generation)
    case CleanUp(u, stale, quiet) => CleanupWith(w.store, u, stale, quiet)
    case ClearUserDevices(u, nodes) => ClearUserAt(w.store, u, nodes)
    case DeleteIndex(i) => w.store.(nodeUsers := w.store.nodeUsers - {w.calls[i].node})
    case _ => w.store
  }

  function SeenAfter(w: World, e: Step): Seen
    requires Enabled(w, e)
  {
    match e
    case RunScript(i) =>
      var c := w.calls[i];
      if Current(w.store, c) then Record(w.seen, c.node, c.phase.todo[0], c.phase.plan[c.phase.todo[0]], c.at)
      else w.seen
    case ClearUserDevices(u, _) => ForgetUser(w.seen, u)
    case DeleteIndex(i) => ForgetNode(w.seen, w.calls[i].node)
    case _ => w.seen
  }

  /** The phase of call `i` after a step of its own. */
  function Moved(w: World, e: Step, i: nat): Phase
    requires Enabled(w, e) && i in w.calls
  {
    var p := w.calls[i].phase;
    match e
    case BumpGeneration(j) => if i == j then Bumped(GenerationOf(w.store, w.calls[i].node) + 1) else p
    case BeginScan(j) => if i == j then Scanning(p.generation, NodeUsers(w.store, w.calls[i].node)) else p
    case EndScan(j, found, order) =>
      if i == j then Writing(p.generation, PlanFor(w.calls[i], found), order, {}, false) else p
    case PlanSnapshot(j, order) =>
      if i == j then Writing(p.generation, PlanFor(w.calls[i], {}), order, {}, false) else p
    case RunScript(j) =>
      if i == j then p.(todo := p.todo[1..], refused := p.refused || !Current(w.store, w.calls[i])) else p
    case DeleteIndex(j) => if i == j then Finished else p
    case End(j) => if i == j then Finished else p
    case ClearUserDevices(u, _) => if p.Writing? && u !in p.todo then p.(dropped := p.dropped + {u}) else p
    case _ => p
  }

  /** What a scan has seen all along shrinks with the index. */
  function Watched(p: Phase, s: Store, n: Node): Phase {
    if p.Scanning? then p.(present := p.present * NodeUsers(s, n)) else p
  }

  function Apply(w: World, e: Step): World
    requires Enabled(w, e)
  {
    var s := StoreAfter(w, e);
    var moved := map i | i in w.calls :: w.calls[i].(phase := Watched(Moved(w, e, i), s, w.calls[i].node));
    var at := Unix(w.store.clock);
    var calls := if e.Begin? then moved[e.id := Call(e.node, e.snapshot, e.replaceAll, false, at, Started)]
                 else if e.BeginClear? then moved[e.id := Call(e.node, map[], true, true, at, Started)]
                 else moved;
    World(s, SeenAfter(w, e), calls)
  }

  ghost predicate Initial(w: World) {
    && w.calls == map[] && w.seen == map[]
    && w.store.devices == map[] && w.store.nodeUsers == map[] && w.store.userNodes == map[]
    && w.store.fields == map[] && w.store.generation == map[]
  }

  /** `ws` is a run: it starts empty, and every state follows from the one before by an enabled step. */
  ghost predicate Run(ws: seq<World>, es: seq<Step>) {
    && |ws| == |es| + 1 && Initial(ws[0])
    && forall k {:trigger es[k]} :: 0 <= k < |es| ==> Enabled(ws[k], es[k]) && ws[k + 1] == Apply(ws[k], es[k])
  }

  // The invariant.

  ghost predicate Numbered(s: Store, c: Call) {
    && c.at * 1000 <= s.clock
    && (InFlight(c) ==> 1 <= c.phase.generation <= GenerationOf(s, c.node))
  }

  ghost predicate Apart(c: Call, d: Call) {
    InFlight(c) && InFlight(d) && c.node == d.node ==> c.phase.generation != d.phase.generation
  }

  ghost predicate Generations(w: World) {
    && (forall i :: i in w.calls ==> Numbered(w.store, w.calls[i]))
    && (forall i, j :: i in w.calls && j in w.calls && i != j ==> Apart(w.calls[i], w.calls[j]))
    && (forall n :: n in w.store.generation ==> w.store.generation[n].value >= 1)
  }

  /** The report of a user whose script has run is the one the snapshot asks for. */
  ghost predicate Settled(w: World, c: Call, u: User)
    requires c.phase.Writing?
  {
    SettledAs(w, c, c.phase.dropped, u)
  }

  ghost predicate SettledAs(w: World, c: Call, dropped: set<User>, u: User) {
    var p := (c.node, u);
    if u in dropped then p !in w.seen
    else if Want(c, u) != {} then p in w.seen && w.seen[p] == Report(Want(c, u), c.at)
    else p in w.seen ==> !Live(w.seen[p].time, w.store.clock)
  }

  ghost predicate Consistent(w: World, c: Call) {
    (c.clear ==> c.replaceAll && c.snapshot == map[]) && PhaseConsistent(w, c)
  }

  ghost predicate PhaseConsistent(w: World, c: Call) {
    match c.phase
    case Scanning(_, present) => Current(w.store, c) ==> NodeUsers(w.store, c.node) <= present
    case Writing(_, plan, todo, dropped, refused) =>
      && (forall u :: u in plan ==> plan[u] == Want(c, u))
      && (forall u :: u in todo ==> u in plan && u !in dropped)
      && (forall i, j :: 0 <= i < j < |todo| ==> todo[i] != todo[j])
      && (refused ==> !Current(w.store, c))
      && (Current(w.store, c) && c.replaceAll ==> forall u :: u !in todo ==> Settled(w, c, u))
    case _ => true
  }

  ghost predicate Inv(w: World) {
    Agrees(w.store, w.seen) && Generations(w) && forall i :: i in w.calls ==> Consistent(w, w.calls[i])
  }

  lemma InitialInv(w: World)
    requires Initial(w)
    ensures Inv(w)
  {
  }

  lemma StepAgrees(w: World, e: Step)
    requires Inv(w) && Enabled(w, e)
    ensures Agrees(Apply(w, e).store, Apply(w, e).seen)
  {
    match e
    case Advance(clock) => AdvanceAgrees(w.store, w.seen, clock);
    case LoseKey(l) => LapseAgrees(w.store, w.seen, l);
    case BumpGeneration(i) => BumpAgrees(w.store, w.seen, w.calls[i].node);
    case RunScript(i) =>
      var c := w.calls[i];
      ReplaceUserAgrees(w.store, w.seen, c.node, c.phase.todo[0], c.phase.plan[c.phase.todo[0]], c.at);
    case CleanUp(u, stale, quiet) => LateCleanupAgrees(w.store, w.seen, u, stale, quiet);
    case ClearUserDevices(u, nodes) => ClearUserAgrees(w.store, w.seen, u, nodes);
    case DeleteIndex(i) =>
      assert Consistent(w, w.calls[i]);
      ClearedNode(w, i);
      UnindexAgrees(w.store, w.seen, w.calls[i].node);
    case _ =>
  }

  /** A clear that has run all its scripts and is still current has forgotten its node. */
  lemma ClearedNode(w: World, i: nat)
    requires Enabled(w, DeleteIndex(i)) && Consistent(w, w.calls[i])
    ensures forall p :: p in w.seen && p.0 == w.calls[i].node ==> !Live(w.seen[p].time, w.store.clock)
  {
    var c := w.calls[i];
    forall p | p in w.seen && p.0 == c.node ensures !Live(w.seen[p].time, w.store.clock) {
      assert Settled(w, c, p.1) && p == (c.node, p.1);
    }
  }

  /** How a step moves the generation of a node: up by one, or not at all while a call is in flight. */
  lemma StepGeneration(w: World, e: Step, n: Node)
    requires Enabled(w, e)
    ensures GenerationOf(StoreAfter(w, e), n) ==
      (match e
       case BumpGeneration(i) => if w.calls[i].node == n then GenerationOf(w.store, n) + 1 else GenerationOf(w.store, n)
       case LoseKey(l) => if l == Generation(n) then 0 else GenerationOf(w.store, n)
       case _ => GenerationOf(w.store, n))
    ensures StoreAfter(w, e).clock >= w.store.clock
  {
  }

  /** A call keeps its generation from its bump to its end. */
  lemma StepKeepsGeneration(w: World, e: Step, i: nat)
    requires Enabled(w, e) && i in w.calls
    ensures i in Apply(w, e).calls
    ensures var c := w.calls[i]; var c' := Apply(w, e).calls[i];
      && c' == c.(phase := c'.phase)
      && (InFlight(c') ==>
        || (InFlight(c) && c'.phase.generation == c.phase.generation)
        || (e == BumpGeneration(i) && c'.phase.generation == GenerationOf(w.store, c.node) + 1))
  {
  }

  lemma StepNumbered(w: World, e: Step, i: nat)
    requires Inv(w) && Enabled(w, e) && i in Apply(w, e).calls
    ensures Numbered(Apply(w, e).store, Apply(w, e).calls[i])
  {
    if i in w.calls {
      assert Numbered(w.store, w.calls[i]);
      StepKeepsGeneration(w, e, i);
      StepGeneration(w, e, w.calls[i].node);
    }
  }

  lemma StepApart(w: World, e: Step, i: nat, j: nat)
    requires Inv(w) && Enabled(w, e) && i != j && i in Apply(w, e).calls && j in Apply(w, e).calls
    ensures Apart(Apply(w, e).calls[i], Apply(w, e).calls[j])
  {
    if i in w.calls && j in w.calls {
      assert Apart(w.calls[i], w.calls[j]) && Numbered(w.store, w.calls[i]) && Numbered(w.store, w.calls[j]);
      StepKeepsGeneration(w, e, i);
      StepKeepsGeneration(w, e, j);
    }
  }

  lemma StepGenerations(w: World, e: Step)
    requires Inv(w) && Enabled(w, e)
    ensures Generations(Apply(w, e))
  {
    var w' := Apply(w, e);
    forall i | i in w'.calls ensures Numbered(w'.store, w'.calls[i]) {
      StepNumbered(w, e, i);
    }
    forall i, j | i in w'.calls && j in w'.calls && i != j ensures Apart(w'.calls[i], w'.calls[j]) {
      StepApart(w, e, i, j);
    }
  }

  /** The fence: a step that touches what `c` has written supersedes it. */
  lemma StepSeenFenced(w: World, e: Step, i: nat, u: User)
    requires Generations(w) && Enabled(w, e) && i in w.calls && InFlight(w.calls[i])
    requires e != RunScript(i) && e != DeleteIndex(i) && Current(w.store, w.calls[i])
    ensures var c := w.calls[i]; var p := (c.node, u);
      || c.phase.generation != GenerationOf(Apply(w, e).store, c.node)
      || (if e.ClearUserDevices? && e.user == u then p !in Apply(w, e).seen
          else if p in w.seen then p in Apply(w, e).seen && Apply(w, e).seen[p] == w.seen[p]
          else p !in Apply(w, e).seen)
  {
    StepGeneration(w, e, w.calls[i].node);
    if e.RunScript? || e.DeleteIndex? {
      assert Apart(w.calls[i], w.calls[e.id]);
    }
  }

  /** No step adds to the index of a node but a script that is not fenced off. */
  lemma StoreIndexShrinks(w: World, e: Step, n: Node)
    requires Enabled(w, e)
    requires e.RunScript? ==> w.calls[e.id].node != n || !Current(w.store, w.calls[e.id])
    ensures NodeUsers(StoreAfter(w, e), n) <= NodeUsers(w.store, n)
  {
  }

  /** As long as a call is not superseded by it, a step can only shrink the index of its node. */
  lemma StepIndexShrinks(w: World, e: Step, i: nat)
    requires Generations(w) && Enabled(w, e) && i in w.calls && InFlight(w.calls[i])
    requires e != RunScript(i) && Current(w.store, w.calls[i])
    ensures var c := w.calls[i];
      || c.phase.generation != GenerationOf(Apply(w, e).store, c.node)
      || NodeUsers(Apply(w, e).store, c.node) <= NodeUsers(w.store, c.node)
  {
    var n := w.calls[i].node;
    StepGeneration(w, e, n);
    if e.RunScript? {
      assert Apart(w.calls[i], w.calls[e.id]);
    }
    StoreIndexShrinks(w, e, n);
  }

  /** A scan begins with the whole index, and what it has seen all along shrinks with it. */
  lemma ScanningMoves(w: World, e: Step, i: nat)
    requires Enabled(w, e) && i in w.calls && Apply(w, e).calls[i].phase.Scanning?
    ensures var c := w.calls[i]; var p := Apply(w, e).calls[i].phase; var now := NodeUsers(Apply(w, e).store, c.node);
      || (e == BeginScan(i) && p.present == now)
      || (c.phase.Scanning? && p.generation == c.phase.generation && p.present == c.phase.present * now)
  {
  }

  lemma StepScanning(w: World, e: Step, i: nat)
    requires Generations(w) && Enabled(w, e) && i in w.calls && Consistent(w, w.calls[i])
    requires Apply(w, e).calls[i].phase.Scanning?
    ensures Consistent(Apply(w, e), Apply(w, e).calls[i])
  {
    var c := w.calls[i];
    ScanningMoves(w, e, i);
    if e != BeginScan(i) && Current(Apply(w, e).store, c) {
      StepGeneration(w, e, c.node);
      assert Numbered(w.store, c);
      StepIndexShrinks(w, e, i);
    }
  }

  /** When its scan ends, a current call plans for every user the node still has a live report of. */
  lemma ScanFindsAll(w: World, e: Step, i: nat, u: User)
    requires Inv(w) && Enabled(w, e) && e.EndScan? && e.id == i && Current(w.store, w.calls[i])
    requires (w.calls[i].node, u) in w.seen && Live(w.seen[(w.calls[i].node, u)].time, w.store.clock)
    ensures u in e.order
  {
    var c := w.calls[i];
    assert Consistent(w, c);
    assert Held(w.store, c.node, u, w.seen[(c.node, u)]);
    assert u in NodeUsers(w.store, c.node);
    assert u in (set v | v in e.order);
  }

  lemma StepPlanned(w: World, e: Step, i: nat)
    requires Inv(w) && Enabled(w, e) && i in w.calls
    requires (e.EndScan? || e.PlanSnapshot?) && e.id == i
    ensures Consistent(Apply(w, e), Apply(w, e).calls[i])
  {
    var c := w.calls[i];
    var c' := Apply(w, e).calls[i];
    forall u | u in e.order ensures u in c'.phase.plan {
      assert u in (set v | v in e.order);
    }
    if Current(w.store, c) && c.replaceAll {
      forall u | u !in e.order ensures Settled(Apply(w, e), c', u) {
        assert u !in (set v | v in e.order);
        if (c.node, u) in w.seen && Live(w.seen[(c.node, u)].time, w.store.clock) {
          ScanFindsAll(w, e, i, u);
        }
      }
    }
  }

  lemma StepOwnScript(w: World, e: Step, i: nat)
    requires Enabled(w, e) && e == RunScript(i) && Consistent(w, w.calls[i])
    ensures Consistent(Apply(w, e), Apply(w, e).calls[i])
  {
    var c := w.calls[i];
    var c' := Apply(w, e).calls[i];
    StepGeneration(w, e, c.node);
    if Current(w.store, c) && c.replaceAll {
      forall u | u !in c'.phase.todo ensures Settled(Apply(w, e), c', u) {
        if u != c.phase.todo[0] {
          assert u !in c.phase.todo;
          assert Settled(w, c, u);
        }
      }
    }
  }

  lemma StepSettled(w: World, e: Step, i: nat, u: User)
    requires Generations(w) && Enabled(w, e) && i in w.calls && w.calls[i].phase.Writing?
    requires Apply(w, e).calls[i].phase.Writing?
    requires e != RunScript(i) && w.calls[i].replaceAll && u !in w.calls[i].phase.todo
    requires Current(w.store, w.calls[i]) && Current(Apply(w, e).store, w.calls[i])
    requires Settled(w, w.calls[i], u)
    ensures Settled(Apply(w, e), Apply(w, e).calls[i], u)
  {
    var c := w.calls[i];
    StepSeenFenced(w, e, i, u);
    StepGeneration(w, e, c.node);
    forall t | Live(t, Apply(w, e).store.clock) ensures Live(t, w.store.clock) {
      LiveEarlier(t, w.store.clock, Apply(w, e).store.clock);
    }
    assert Apply(w, e).calls[i] == c.(phase := Moved(w, e, i));
    if !(e.ClearUserDevices? && e.user == u) {
      assert u in Moved(w, e, i).dropped <==> u in c.phase.dropped;
    }
  }

  lemma AppliedCall(w: World, e: Step, i: nat)
    requires Enabled(w, e) && i in w.calls
    ensures i in Apply(w, e).calls
    ensures Apply(w, e).calls[i] == w.calls[i].(phase := Watched(Moved(w, e, i), StoreAfter(w, e), w.calls[i].node))
  {
  }

  /** A call in its writing phase only moves by its own scripts, but for the users cleared meanwhile. */
  lemma OtherStepsKeepWriting(w: World, e: Step, i: nat)
    requires Enabled(w, e) && i in w.calls && w.calls[i].phase.Writing? && Apply(w, e).calls[i].phase.Writing?
    requires e != RunScript(i)
    ensures var c := w.calls[i]; var c' := Apply(w, e).calls[i];
      && c' == c.(phase := c.phase.(dropped := c'.phase.dropped))
      && forall v :: v in c.phase.todo && v in c'.phase.dropped ==> v in c.phase.dropped
  {
    AppliedCall(w, e, i);
  }

  lemma StepSettledAll(w: World, e: Step, i: nat)
    requires Generations(w) && Enabled(w, e) && i in w.calls && w.calls[i].phase.Writing?
    requires Apply(w, e).calls[i].phase.Writing?
    requires e != RunScript(i) && w.calls[i].replaceAll && Current(Apply(w, e).store, w.calls[i])
    requires Current(w.store, w.calls[i]) ==> forall u :: u !in w.calls[i].phase.todo ==> Settled(w, w.calls[i], u)
    ensures forall u :: u !in w.calls[i].phase.todo ==> Settled(Apply(w, e), Apply(w, e).calls[i], u)
  {
    assert Numbered(w.store, w.calls[i]);
    StepGeneration(w, e, w.calls[i].node);
    forall u | u !in w.calls[i].phase.todo ensures Settled(Apply(w, e), Apply(w, e).calls[i], u) {
      StepSettled(w, e, i, u);
    }
  }

  lemma StepOtherScript(w: World, e: Step, i: nat)
    requires Generations(w) && Enabled(w, e) && i in w.calls && w.calls[i].phase.Writing?
    requires Apply(w, e).calls[i].phase.Writing?
    requires e != RunScript(i) && Consistent(w, w.calls[i])
    ensures Consistent(Apply(w, e), Apply(w, e).calls[i])
  {
    var c := w.calls[i];
    OtherStepsKeepWriting(w, e, i);
    assert Numbered(w.store, c);
    StepGeneration(w, e, c.node);
    if Current(Apply(w, e).store, c) && c.replaceAll {
      StepSettledAll(w, e, i);
    }
  }

  lemma StepConsistent(w: World, e: Step, i: nat)
    requires Inv(w) && Enabled(w, e) && i in Apply(w, e).calls
    ensures Consistent(Apply(w, e), Apply(w, e).calls[i])
  {
    var c' := Apply(w, e).calls[i];
    if i in w.calls {
      if c'.phase.Scanning? {
        StepScanning(w, e, i);
      } else if c'.phase.Writing? {
        if e == RunScript(i) {
          StepOwnScript(w, e, i);
        } else if w.calls[i].phase.Writing? {
          StepOtherScript(w, e, i);
        } else {
          StepPlanned(w, e, i);
        }
      }
    }
  }

  lemma StepInv(w: World, e: Step)
    requires Inv(w) && Enabled(w, e)
    ensures Inv(Apply(w, e))
  {
    StepAgrees(w, e);
    StepGenerations(w, e);
    forall i | i in Apply(w, e).calls ensures Consistent(Apply(w, e), Apply(w, e).calls[i]) {
      StepConsistent(w, e, i);
    }
  }

  lemma {:induction false} RunInv(ws: seq<World>, es: seq<Step>, k: nat)
    requires Run(ws, es) && k < |ws|
    ensures Inv(ws[k])
  {
    if k == 0 {
      InitialInv(ws[0]);
    } else {
      RunInv(ws, es, k - 1);
      StepInv(ws[k - 1], es[k - 1]);
    }
  }

  /** Over every run, at every moment, for every user: a listing returns exactly the addresses that
      the accepted reports hold within the online window. */
  lemma ListingExactOverRuns(ws: seq<World>, es: seq<Step>, k: nat, u: User, ip: IP)
    requires Run(ws, es) && k < |ws|
    ensures ip in LiveIPs(ws[k].store, u) <==> Reported(ws[k].seen, u, ws[k].store.clock, ip)
  {
    RunInv(ws, es, k);
    ListingIsExact(ws[k].store, ws[k].seen, u, ip);
  }

  /** From the moment the last script of a replace-all is accepted, or its scan finds nobody to write, until the call is
      superseded, the live fields of its node are the snapshot: for every user and every address, with the snapshot's
      time; a user whose devices were cleared after its script has none. For a node clear there are none at all. */
  lemma FencedReplacement(ws: seq<World>, es: seq<Step>, k: nat, i: nat, u: User, f: Field)
    requires Run(ws, es) && k < |ws| && i in ws[k].calls && ws[k].calls[i].phase.Writing? && ws[k].calls[i].replaceAll
    requires ws[k].calls[i].phase.todo == [] && Current(ws[k].store, ws[k].calls[i]) && f.node == ws[k].calls[i].node
    ensures var c := ws[k].calls[i]; var s := ws[k].store;
      && (f in LiveFields(s, u) <==> u !in c.phase.dropped && f.ip in Want(c, u) && Live(c.at, s.clock))
      && (f in LiveFields(s, u) ==> LiveFields(s, u)[f] == c.at)
      && !c.phase.refused && (c.clear ==> f !in LiveFields(s, u))
  {
    RunInv(ws, es, k);
    var c := ws[k].calls[i];
    assert Consistent(ws[k], c) && Settled(ws[k], c, u);
    SettledFields(ws[k], c, c.phase.dropped, u, f);
  }

  /** An accepted last script, and a scan that leaves nothing to do, bring a replace-all there. */
  lemma ReplacementArrives(ws: seq<World>, es: seq<Step>, k: nat, i: nat)
    requires Run(ws, es) && k < |es| && i in ws[k].calls && InFlight(ws[k].calls[i])
    requires Current(ws[k].store, ws[k].calls[i])
    requires (es[k] == RunScript(i) && |ws[k].calls[i].phase.todo| == 1)
      || (es[k].EndScan? && es[k].id == i && es[k].order == [])
    ensures i in ws[k + 1].calls && ws[k + 1].calls[i].phase.Writing? && ws[k + 1].calls[i].phase.todo == []
    ensures Current(ws[k + 1].store, ws[k + 1].calls[i]) && ws[k + 1].calls[i].replaceAll == ws[k].calls[i].replaceAll
    ensures es[k] == RunScript(i) ==> ws[k + 1].calls[i].phase.dropped == ws[k].calls[i].phase.dropped
  {
    var w, e := ws[k], es[k];
    assert ws[k + 1] == Apply(w, e);
    AppliedCall(w, e, i);
    StepGeneration(w, e, w.calls[i].node);
  }

  /** A settled user has the live fields its report asks for. */
  lemma SettledFields(w: World, c: Call, dropped: set<User>, u: User, f: Field)
    requires Agrees(w.store, w.seen) && SettledAs(w, c, dropped, u) && f.node == c.node
    ensures var h := LiveFields(w.store, u);
      && (f in h <==> u !in dropped && f.ip in Want(c, u) && Live(c.at, w.store.clock))
      && (f in h ==> h[f] == c.at)
  {
    if u !in dropped && Want(c, u) != {} && Live(c.at, w.store.clock) {
      assert Held(w.store, c.node, u, w.seen[(c.node, u)]);
    }
    assert f == Field(c.node, f.ip);
  }

  /** Once a newer generation exists, a call stays superseded for as long as it runs. */
  lemma {:induction false} SupersededStays(ws: seq<World>, es: seq<Step>, j: nat, k: nat, i: nat)
    requires Run(ws, es) && j <= k < |ws| && i in ws[j].calls && InFlight(ws[j].calls[i])
    requires ws[j].calls[i].phase.generation < GenerationOf(ws[j].store, ws[j].calls[i].node)
    requires i in ws[k].calls && InFlight(ws[k].calls[i])
    ensures ws[k].calls[i].node == ws[j].calls[i].node
    ensures ws[k].calls[i].phase.generation < GenerationOf(ws[k].store, ws[k].calls[i].node)
    decreases k - j
  {
    if j < k {
      CallsPersist(ws, es, j, k - 1, i);
      StepKeepsGeneration(ws[k - 1], es[k - 1], i);
      StepGeneration(ws[k - 1], es[k - 1], ws[k - 1].calls[i].node);
      SupersededStays(ws, es, j, k - 1, i);
    }
  }

  lemma {:induction false} CallsPersist(ws: seq<World>, es: seq<Step>, j: nat, k: nat, i: nat)
    requires Run(ws, es) && j <= k < |ws| && i in ws[j].calls && !ws[j].calls[i].phase.Started?
    ensures i in ws[k].calls && !ws[k].calls[i].phase.Started?
    decreases k - j
  {
    if j < k {
      CallsPersist(ws, es, j, k - 1, i);
      StepKeepsGeneration(ws[k - 1], es[k - 1], i);
    }
  }

  /** No script of an older generation changes anything after a newer bump. */
  lemma StaleScriptsChangeNothing(ws: seq<World>, es: seq<Step>, j: nat, k: nat, i: nat)
    requires Run(ws, es) && j <= k < |es| && i in ws[j].calls && InFlight(ws[j].calls[i])
    requires ws[j].calls[i].phase.generation < GenerationOf(ws[j].store, ws[j].calls[i].node)
    requires es[k] == RunScript(i)
    ensures ws[k + 1].store == ws[k].store && ws[k + 1].seen == ws[k].seen && ws[k + 1].calls[i].phase.refused
  {
    SupersededStays(ws, es, j, k, i);
  }
}
