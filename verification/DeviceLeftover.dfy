/** A field that outlives its report: the raw fields of a node can differ from what it last reported. */
module DeviceLeftover {
  import opened Collections
  import opened DeviceStore
  import opened DeviceSummaries

  ghost predicate Reachable(y: System, delay: nat) {
    exists ys: seq<System>, es: seq<Event> :: History(ys, es, delay) && ys[|es|] == y
  }

  lemma ReachNext(y: System, e: Event, delay: nat)
    requires Reachable(y, delay) && Possible(y, e)
    ensures Reachable(After(y, e, delay), delay)
  {
    var ys: seq<System>, es: seq<Event> :| History(ys, es, delay) && ys[|es|] == y;
    var zs, fs := ys + [After(y, e, delay)], es + [e];
    forall k {:trigger fs[k]} | 0 <= k < |fs|
      ensures Possible(zs[k], fs[k]) && zs[k + 1] == After(zs[k], fs[k], delay)
    {
      assert fs[k] == if k < |es| then es[k] else e;
      assert zs[k] == ys[k];
    }
    assert History(zs, fs, delay) && zs[|fs|] == After(y, e, delay);
  }

  const OLD_FIELD := Field(1, "a")

  /** The field index of the old field, with its expiry. */
  predicate IndexedOld(s: Store) {
    (7, 1) in s.fields && s.fields[(7, 1)].expires == 360_000
  }

  /** User 7 is reserved, and its hash has the address node 1 reported at time 0. */
  predicate HasOldField(y: System, clock: nat) {
    && y.store.clock == clock && 7 in y.ledger.throttle
    && OLD_FIELD in Hash(y.store, 7) && Hash(y.store, 7)[OLD_FIELD] == 0
  }

  /** A report for a reserved user does nothing but run its script. */
  lemma ReservedReport(y: System, n: Node, ips: set<IP>, delay: nat)
    requires 7 in y.ledger.throttle
    ensures var e := ReplaceNode(n, map[7 := ips], false, Batch([7], [], [7]));
      && Possible(y, e) && 7 in After(y, e, delay).ledger.throttle
      && After(y, e, delay).store == ReplaceUser(Bump(y.store, n), n, 7, ips, Unix(y.store.clock))
  {
    assert (set u: User | u in [7]) == map[7 := ips].Keys + {};
  }

  lemma ReachReport(y: System, n: Node, ips: set<IP>, delay: nat) returns (z: System)
    requires Reachable(y, delay) && 7 in y.ledger.throttle
    ensures Reachable(z, delay) && 7 in z.ledger.throttle
    ensures z.store == ReplaceUser(Bump(y.store, n), n, 7, ips, Unix(y.store.clock))
  {
    ReservedReport(y, n, ips, delay);
    ReachNext(y, ReplaceNode(n, map[7 := ips], false, Batch([7], [], [7])), delay);
    z := After(y, ReplaceNode(n, map[7 := ips], false, Batch([7], [], [7])), delay);
  }

  predicate Empty(s: Store) {
    s.clock == 0 && s.devices == map[] && s.nodeUsers == map[] && s.fields == map[]
  }

  lemma EmptyStaysEmpty(s: Store)
    requires Empty(s)
    ensures Empty(Cleanup(ReplaceUser(Bump(s, 9), 9, 7, {}, 0), 7))
  {
    var t := ReplaceUser(Bump(s, 9), 9, 7, {}, 0);
    assert Empty(t);
    assert Hash(t, 7) == map[];
  }

  /** An empty report is written at once, which reserves the user. */
  lemma Reserved(y: System, delay: nat) returns (z: System)
    requires Reachable(y, delay) && Empty(y.store) && y.ledger.throttle == map[]
    ensures Reachable(z, delay) && Empty(z.store) && 7 in z.ledger.throttle
  {
    var snapshot: map<User, set<IP>> := map[7 := {}];
    var b := Batch([7], [7], []);
    assert (set u: User | u in [7]) == snapshot.Keys + {};
    assert Possible(y, ReplaceNode(9, snapshot, false, b));
    ReachNext(y, ReplaceNode(9, snapshot, false, b), delay);
    EmptyStaysEmpty(y.store);
    z := Notify(WithReport(y, 9, snapshot, [7]), b, delay);
    assert ReplaceUsers(Bump(y.store, 9), 9, snapshot, [7]) == ReplaceUser(Bump(y.store, 9), 9, 7, {}, 0);
    assert 7 in AsSet([7]);
  }

  lemma OldFieldArises(y: System, delay: nat) returns (z: System)
    requires Reachable(y, delay) && Empty(y.store) && 7 in y.ledger.throttle
    ensures Reachable(z, delay) && HasOldField(z, 0) && IndexedOld(z.store)
    ensures NodeUsers(z.store, 1) == {7} && (7, 2) !in z.store.fields
  {
    z := ReachReport(y, 1, {"a"}, delay);
  }

  lemma OldFieldWaits(y: System, clock: nat, later: nat, delay: nat) returns (z: System)
    requires Reachable(y, delay) && HasOldField(y, clock) && IndexedOld(y.store) && clock <= later
    ensures Reachable(z, delay) && HasOldField(z, later) && IndexedOld(z.store)
    ensures NodeUsers(z.store, 1) == NodeUsers(y.store, 1) && z.store.fields == y.store.fields
  {
    ReachNext(y, Wait(later), delay);
    z := y.(store := y.store.(clock := later));
  }

  /** Another node keeps the hash alive. */
  lemma OldFieldIsKept(y: System, delay: nat) returns (z: System)
    requires Reachable(y, delay) && HasOldField(y, 200_000) && IndexedOld(y.store)
    requires NodeUsers(y.store, 1) == {7} && (7, 2) !in y.store.fields
    ensures Reachable(z, delay) && HasOldField(z, 200_000) && IndexedOld(z.store) && NodeUsers(z.store, 1) == {7}
  {
    z := ReachReport(y, 2, {"b"}, delay);
  }

  lemma OldFieldLosesIndex(y: System, delay: nat) returns (z: System)
    requires Reachable(y, delay) && HasOldField(y, 360_000) && IndexedOld(y.store) && NodeUsers(y.store, 1) == {7}
    ensures Reachable(z, delay) && HasOldField(z, 360_000) && FieldsOf(z.store, 7, 1) == {}
    ensures NodeUsers(z.store, 1) == {7}
  {
    ReachNext(y, LoseDeviceKey(FieldIndex(7, 1)), delay);
    z := After(y, LoseDeviceKey(FieldIndex(7, 1)), delay);
  }

  /** An empty replace-all visits the user once more and takes it off the index. */
  lemma OldFieldIsLeft(y: System, delay: nat) returns (z: System)
    requires HasOldField(y, 360_000) && FieldsOf(y.store, 7, 1) == {} && NodeUsers(y.store, 1) == {7}
    ensures Possible(y, ReplaceNode(1, map[], true, Batch([7], [], [7])))
    ensures z == After(y, ReplaceNode(1, map[], true, Batch([7], [], [7])), delay)
    ensures HasOldField(z, 360_000) && NodeUsers(z.store, 1) == {}
  {
    var e := ReplaceNode(1, map[], true, Batch([7], [], [7]));
    assert (set u: User | u in [7]) == e.snapshot.Keys + NodeUsers(y.store, 1);
    z := After(y, e, delay);
    var s := Bump(y.store, 1);
    assert z.store == ReplaceUser(s, 1, 7, {}, 360);
    ReplaceHash(s, 1, 7, {}, 360, OLD_FIELD);
    assert OLD_FIELD !in FieldsOf(s, 7, 1) && OLD_FIELD !in FieldsFor(1, {});
  }

  /** From then on every replace-all of the node passes over the user. */
  lemma OldFieldIsPassedOver(y: System, delay: nat)
    requires HasOldField(y, 360_000) && NodeUsers(y.store, 1) == {}
    ensures var e := ReplaceNode(1, map[], true, Batch([], [], []));
      Possible(y, e) && HasOldField(After(y, e, delay), 360_000)
  {
    var e := ReplaceNode(1, map[], true, Batch([], [], []));
    assert (set u: User | u in []) == e.snapshot.Keys + NodeUsers(y.store, 1);
    assert After(y, e, delay).store == Bump(y.store, 1);
  }

  lemma Begin(delay: nat) returns (y: System)
    ensures Reachable(y, delay) && Empty(y.store) && y.ledger.throttle == map[]
  {
    y := System(Store(0, map[], map[], map[], map[], map[]), map[], Ledger(map[], map[], map[], map[], []));
    assert History([y], [], delay) && [y][0] == y;
  }

  lemma OldFieldBegins(delay: nat) returns (z: System)
    ensures Reachable(z, delay) && HasOldField(z, 0) && IndexedOld(z.store)
    ensures NodeUsers(z.store, 1) == {7} && (7, 2) !in z.store.fields
  {
    var y := Begin(delay);
    y := Reserved(y, delay);
    z := OldFieldArises(y, delay);
  }

  lemma OldFieldIsAlone(y: System, delay: nat) returns (z: System)
    requires Reachable(y, delay) && HasOldField(y, 0) && IndexedOld(y.store)
    requires NodeUsers(y.store, 1) == {7} && (7, 2) !in y.store.fields
    ensures Reachable(z, delay) && HasOldField(z, 360_000) && FieldsOf(z.store, 7, 1) == {}
    ensures NodeUsers(z.store, 1) == {7}
  {
    z := OldFieldWaits(y, 0, 200_000, delay);
    z := OldFieldIsKept(z, delay);
    z := OldFieldWaits(z, 200_000, 360_000, delay);
    z := OldFieldLosesIndex(z, delay);
  }

  /** There is a history in which node 1 replaces all its devices by none, twice, and a field of it is still in a hash:
      not live, but there. */
  lemma OldFieldStays(delay: nat) returns (y: System, z: System)
    ensures Reachable(y, delay) && Possible(y, ReplaceNode(1, map[], true, Batch([7], [], [7])))
    ensures z == After(y, ReplaceNode(1, map[], true, Batch([7], [], [7])), delay)
    ensures Possible(z, ReplaceNode(1, map[], true, Batch([], [], [])))
    ensures HasOldField(After(z, ReplaceNode(1, map[], true, Batch([], [], [])), delay), 360_000) && !Live(0, 360_000)
  {
    y := OldFieldBegins(delay);
    y := OldFieldIsAlone(y, delay);
    z := OldFieldIsLeft(y, delay);
    OldFieldIsPassedOver(z, delay);
  }
}
