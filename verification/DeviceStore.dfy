/** The Redis side of live device tracking: one hash of observations per user, three redundant
    indexes over it, and a key expiry on each of them.

    Keys are values with an expiry instant in milliseconds. A key may disappear at any moment from
    that instant on, and not before. The simple thing the store must agree with is `Seen`: the last
    accepted report of every (node, user) pair. */
module DeviceStore {

  type User = int
  type Node = int
  type IP = string

  const ONLINE_WINDOW := 300
  const STATE_RETENTION := ONLINE_WINDOW + 60
  const INDEX_RETENTION := 2 * STATE_RETENTION

  /** A hash field, written `node:ip` in Redis. */
  datatype Field = Field(node: Node, ip: IP)

  datatype Key<+T> = Key(value: T, expires: int)

  datatype Store = Store(
    clock: nat,
    devices: map<User, Key<map<Field, int>>>,
    nodeUsers: map<Node, Key<set<User>>>,
    userNodes: map<User, Key<set<Node>>>,
    fields: map<(User, Node), Key<set<Field>>>,
    generation: map<Node, Key<int>>)

  /** One accepted report: the addresses a node saw for a user, and when, in Unix seconds. */
  datatype Report = Report(ips: set<IP>, time: int)

  type Seen = map<(Node, User), Report>

  function Unix(clock: nat): (seconds: nat) {
    clock / 1000
  }

  /** An observation counts while it is younger than the online window. */
  predicate Live(time: int, clock: nat) {
    time > Unix(clock) - ONLINE_WINDOW
  }

  // Reading keys: a missing key reads as an empty collection.

  function Hash(s: Store, u: User): map<Field, int> {
    if u in s.devices then s.devices[u].value else map[]
  }

  function NodeUsers(s: Store, n: Node): set<User> {
    if n in s.nodeUsers then s.nodeUsers[n].value else {}
  }

  function UserNodes(s: Store, u: User): set<Node> {
    if u in s.userNodes then s.userNodes[u].value else {}
  }

  function FieldsOf(s: Store, u: User, n: Node): set<Field> {
    if (u, n) in s.fields then s.fields[(u, n)].value else {}
  }

  function GenerationOf(s: Store, n: Node): int {
    if n in s.generation then s.generation[n].value else 0
  }

  /** A collection disappears with its last member. */
  predicate Emptied<T>(members: set<T>, gone: set<T>) {
    members != {} && members <= gone
  }

  /** SREM: the key keeps its expiry while it has members. */
  function SetRemove<K, T>(m: map<K, Key<set<T>>>, k: K, gone: set<T>): map<K, Key<set<T>>> {
    if k !in m then m
    else if Emptied(m[k].value, gone) then m - {k}
    else m[k := m[k].(value := m[k].value - gone)]
  }

  /** HDEL, likewise. */
  function HashRemove<K, F, V>(m: map<K, Key<map<F, V>>>, k: K, gone: set<F>): map<K, Key<map<F, V>>> {
    if k !in m then m
    else if Emptied(m[k].value.Keys, gone) then m - {k}
    else m[k := m[k].(value := m[k].value - gone)]
  }

  function FieldsFor(n: Node, ips: set<IP>): set<Field> {
    set ip | ip in ips :: Field(n, ip)
  }

  function StateExpiry(s: Store): int { s.clock + STATE_RETENTION * 1000 }
  function IndexExpiry(s: Store): int { s.clock + INDEX_RETENTION * 1000 }

  /** The first half of the replacement script: what the field index names leaves the hash. */
  function Unindexed(s: Store, n: Node, u: User): Store {
    s.(devices := HashRemove(s.devices, u, FieldsOf(s, u, n)), fields := s.fields - {(u, n)})
  }

  /** The second half for a report with addresses: fields and all three indexes, with fresh expiries. */
  function Written(s: Store, n: Node, u: User, ips: set<IP>, time: int): Store {
    s.(devices := s.devices[u := Key(Hash(s, u) + (map f | f in FieldsFor(n, ips) :: time), StateExpiry(s))],
       fields := s.fields[(u, n) := Key(FieldsFor(n, ips), StateExpiry(s))],
       nodeUsers := s.nodeUsers[n := Key(NodeUsers(s, n) + {u}, IndexExpiry(s))],
       userNodes := s.userNodes[u := Key(UserNodes(s, u) + {n}, IndexExpiry(s))])
  }

  /** The second half for an empty one. */
  function Unlisted(s: Store, n: Node, u: User): Store {
    s.(nodeUsers := SetRemove(s.nodeUsers, n, {u}), userNodes := SetRemove(s.userNodes, u, {n}))
  }

  /** The replacement script for one (node, user) pair once its generation has been accepted. */
  function ReplaceUser(s: Store, n: Node, u: User, ips: set<IP>, time: int): Store {
    if ips == {} then Unlisted(Unindexed(s, n, u), n, u) else Written(Unindexed(s, n, u), n, u, ips, time)
  }

  /** The whole script: a call whose generation is not the current one is refused. */
  function Replace(s: Store, n: Node, u: User, ips: set<IP>, time: int, generation: int): Store {
    if GenerationOf(s, n) != generation then s else ReplaceUser(s, n, u, ips, time)
  }

  function Bump(s: Store, n: Node): Store {
    s.(generation := s.generation[n := Key(GenerationOf(s, n) + 1, IndexExpiry(s))])
  }

  function StaleFields(s: Store, u: User): set<Field> {
    set f | f in Hash(s, u) && !Live(Hash(s, u)[f], s.clock)
  }

  /** Nodes with a stale field and no live one. */
  function QuietNodes(s: Store, u: User): set<Node> {
    set f | f in StaleFields(s, u) && forall g :: g in Hash(s, u) && g.node == f.node ==>
      g in StaleFields(s, u) :: f.node
  }

  /** The clean-up pipeline, for the stale fields and the quiet nodes of a user. */
  function CleanupWith(s: Store, u: User, stale: set<Field>, quiet: set<Node>): Store {
    s.(devices := HashRemove(s.devices, u, stale),
       fields := map k | k in s.fields && !(k.0 == u && (k.1 in quiet || Emptied(s.fields[k].value, stale)))
                   :: if k.0 == u then s.fields[k].(value := s.fields[k].value - stale) else s.fields[k],
       nodeUsers := map n | n in s.nodeUsers && !(n in quiet && Emptied(s.nodeUsers[n].value, {u}))
                      :: if n in quiet then s.nodeUsers[n].(value := s.nodeUsers[n].value - {u}) else s.nodeUsers[n],
       userNodes := SetRemove(s.userNodes, u, quiet))
  }

  /** What a listing leaves behind: stale fields and the index entries they leave empty are gone. */
  function Cleanup(s: Store, u: User): Store {
    CleanupWith(s, u, StaleFields(s, u), QuietNodes(s, u))
  }

  function ClearUser(s: Store, u: User): Store {
    ClearUserAt(s, u, UserNodes(s, u))
  }

  /** The deletions of a user clear, for the nodes it has read, be that long ago. */
  function ClearUserAt(s: Store, u: User, nodes: set<Node>): Store {
    s.(devices := s.devices - {u},
       userNodes := s.userNodes - {u},
       fields := map k | k in s.fields && !(k.0 == u && k.1 in nodes) :: s.fields[k],
       nodeUsers := map n | n in s.nodeUsers && !(n in nodes && Emptied(s.nodeUsers[n].value, {u}))
                      :: if n in nodes then s.nodeUsers[n].(value := s.nodeUsers[n].value - {u}) else s.nodeUsers[n])
  }

  /** The clearing scripts of one node, one indexed user after the other. */
  function DropUsers(s: Store, n: Node, users: seq<User>): Store
    decreases |users|
  {
    if users == [] then s else DropUsers(ReplaceUser(s, n, users[0], {}, 0), n, users[1..])
  }

  // The invariant that ties the store to what was reported.

  /** Every report is in the past, and names at least one address. */
  ghost predicate Plausible(s: Store, seen: Seen) {
    forall p :: p in seen ==> seen[p].ips != {} && seen[p].time * 1000 <= s.clock
  }

  /** A field was written by the report of its pair. */
  predicate Backed(seen: Seen, u: User, f: Field, time: int) {
    (f.node, u) in seen && seen[(f.node, u)].time == time && f.ip in seen[(f.node, u)].ips
  }

  /** No live field without the report that wrote it. */
  ghost predicate Sound(s: Store, seen: Seen) {
    forall u, f :: u in s.devices && f in s.devices[u].value && Live(s.devices[u].value[f], s.clock) ==>
      Backed(seen, u, f, s.devices[u].value[f])
  }

  /** A report is held: its fields and all three index entries are there, and their keys outlive it. */
  ghost predicate Held(s: Store, n: Node, u: User, r: Report) {
    && u in s.devices && s.devices[u].expires >= (r.time + STATE_RETENTION) * 1000
    && (u, n) in s.fields && s.fields[(u, n)].expires >= (r.time + STATE_RETENTION) * 1000
    && n in s.nodeUsers && s.nodeUsers[n].expires >= (r.time + INDEX_RETENTION) * 1000
    && u in s.nodeUsers[n].value
    && u in s.userNodes && s.userNodes[u].expires >= (r.time + INDEX_RETENTION) * 1000
    && n in s.userNodes[u].value
    && forall ip :: ip in r.ips ==>
      && Field(n, ip) in s.devices[u].value && s.devices[u].value[Field(n, ip)] == r.time
      && Field(n, ip) in s.fields[(u, n)].value
  }

  ghost predicate Complete(s: Store, seen: Seen) {
    forall p :: p in seen && Live(seen[p].time, s.clock) ==> Held(s, p.0, p.1, seen[p])
  }

  /** The field index of a pair only names fields of its node. */
  ghost predicate Tagged(s: Store) {
    forall k, f :: k in s.fields && f in s.fields[k].value ==> f.node == k.1
  }

  ghost predicate Agrees(s: Store, seen: Seen) {
    Tagged(s) && Plausible(s, seen) && Sound(s, seen) && Complete(s, seen)
  }

  /** The addresses of a user according to the reports. */
  ghost predicate Reported(seen: Seen, u: User, clock: nat, ip: IP) {
    exists n :: (n, u) in seen && Live(seen[(n, u)].time, clock) && ip in seen[(n, u)].ips
  }

  function LiveFields(s: Store, u: User): map<Field, int> {
    map f | f in Hash(s, u) && Live(Hash(s, u)[f], s.clock) :: Hash(s, u)[f]
  }

  /** The addresses a listing returns, before sorting. */
  function LiveIPs(s: Store, u: User): set<IP> {
    set f | f in LiveFields(s, u) :: f.ip
  }

  /** A listing shows exactly what the reports say. */
  lemma ListingIsExact(s: Store, seen: Seen, u: User, ip: IP)
    requires Agrees(s, seen)
    ensures ip in LiveIPs(s, u) <==> Reported(seen, u, s.clock, ip)
  {
    if ip in LiveIPs(s, u) {
      var f :| f in LiveFields(s, u) && f.ip == ip;
      assert (f.node, u) in seen;
    }
    if Reported(seen, u, s.clock, ip) {
      var n :| (n, u) in seen && Live(seen[(n, u)].time, s.clock) && ip in seen[(n, u)].ips;
      assert Held(s, n, u, seen[(n, u)]);
      assert Field(n, ip) in LiveFields(s, u);
    }
  }

  // Every step keeps the agreement.

  function Record(seen: Seen, n: Node, u: User, ips: set<IP>, time: int): Seen {
    if ips == {} then seen - {(n, u)} else seen[(n, u) := Report(ips, time)]
  }

  /** What the script does to the hash of its user: the indexed fields go, the new ones come. */
  lemma ReplaceHash(s: Store, n: Node, u: User, ips: set<IP>, time: int, f: Field)
    ensures var h := Hash(ReplaceUser(s, n, u, ips, time), u);
      && (f in FieldsFor(n, ips) ==> f in h && h[f] == time)
      && (f !in FieldsFor(n, ips) ==>
        (f in h <==> f in Hash(s, u) && f !in FieldsOf(s, u, n)) && (f in h ==> h[f] == Hash(s, u)[f]))
  {
  }

  predicate Indexed(s: Store, n: Node, u: User, ips: set<IP>) {
    forall f :: f in Hash(s, u) && f.node == n ==> f in FieldsOf(s, u, n) || f.ip in ips
  }

  /** The fields of the node, live or not, are those of the given addresses. */
  ghost predicate Exactly(h: map<Field, int>, n: Node, ips: set<IP>) {
    forall f: Field :: f.node == n ==> (f in h <==> f.ip in ips)
  }

  /** The script leaves exactly the reported fields of its node, live or not, if and only if every
      other field the hash had for the node was still in the field index. */
  lemma ScriptIsExactIff(s: Store, n: Node, u: User, ips: set<IP>, time: int)
    ensures Exactly(Hash(ReplaceUser(s, n, u, ips, time), u), n, ips) <==> Indexed(s, n, u, ips)
  {
    var h := Hash(ReplaceUser(s, n, u, ips, time), u);
    forall f: Field | f.node == n ensures f in h <==> f.ip in ips || (f in Hash(s, u) && f !in FieldsOf(s, u, n)) {
      ReplaceHash(s, n, u, ips, time, f);
      assert f in FieldsFor(n, ips) <==> f.ip in ips by { assert f == Field(n, f.ip); }
    }
  }

  /** A live field is in the field index. */
  lemma LiveIsIndexed(s: Store, seen: Seen, u: User, f: Field)
    requires Agrees(s, seen) && f in LiveFields(s, u)
    ensures f in FieldsOf(s, u, f.node)
  {
    assert Backed(seen, u, f, LiveFields(s, u)[f]) && Held(s, f.node, u, seen[(f.node, u)]);
    assert f == Field(f.node, f.ip);
  }

  /** What the script leaves behind is not live. */
  lemma ScriptLiveIsExact(s: Store, seen: Seen, n: Node, u: User, ips: set<IP>)
    requires Agrees(s, seen)
    ensures Exactly(LiveFields(ReplaceUser(s, n, u, ips, Unix(s.clock)), u), n, ips)
  {
    var t := ReplaceUser(s, n, u, ips, Unix(s.clock));
    forall f: Field | f.node == n ensures f in LiveFields(t, u) <==> f.ip in ips {
      ReplaceHash(s, n, u, ips, Unix(s.clock), f);
      assert f in FieldsFor(n, ips) <==> f.ip in ips by { assert f == Field(n, f.ip); }
      if f in LiveFields(s, u) {
        LiveIsIndexed(s, seen, u, f);
      }
    }
  }

  lemma ReplaceElsewhere(s: Store, n: Node, u: User, ips: set<IP>, time: int, v: User)
    requires v != u
    ensures Hash(ReplaceUser(s, n, u, ips, time), v) == Hash(s, v)
    ensures LiveFields(ReplaceUser(s, n, u, ips, time), v) == LiveFields(s, v)
  {
    var t := ReplaceUser(s, n, u, ips, time);
    assert t.clock == s.clock;
    assert v in t.devices <==> v in s.devices;
    assert v in s.devices ==> t.devices[v] == s.devices[v];
  }

  /** A live field of the script's user is backed by a report, the new one or an old one of another node. */
  lemma ReplaceSoundOwn(s: Store, seen: Seen, n: Node, u: User, ips: set<IP>, time: int, f: Field)
    requires Sound(s, seen) && Complete(s, seen)
    requires var h := Hash(ReplaceUser(s, n, u, ips, time), u); f in h && Live(h[f], s.clock)
    ensures Backed(Record(seen, n, u, ips, time), u, f, Hash(ReplaceUser(s, n, u, ips, time), u)[f])
  {
    ReplaceHash(s, n, u, ips, time, f);
    if f !in FieldsFor(n, ips) {
      assert u in s.devices && f in s.devices[u].value;
      assert Held(s, f.node, u, seen[(f.node, u)]);
      assert f == Field(f.node, f.ip);
      assert f in FieldsOf(s, u, f.node);
    }
  }

  lemma ReplaceSound(s: Store, seen: Seen, n: Node, u: User, ips: set<IP>, time: int)
    requires Sound(s, seen) && Complete(s, seen)
    ensures Sound(ReplaceUser(s, n, u, ips, time), Record(seen, n, u, ips, time))
  {
    var s' := ReplaceUser(s, n, u, ips, time);
    assert s'.clock == s.clock;
    forall v, f | v in s'.devices && f in s'.devices[v].value && Live(s'.devices[v].value[f], s'.clock)
      ensures Backed(Record(seen, n, u, ips, time), v, f, s'.devices[v].value[f])
    {
      assert Hash(s', v) == s'.devices[v].value;
      if v == u {
        ReplaceSoundOwn(s, seen, n, u, ips, time, f);
      } else {
        ReplaceSoundElsewhere(s, seen, n, u, ips, time, v, f);
      }
    }
  }

  lemma ReplaceSoundElsewhere(s: Store, seen: Seen, n: Node, u: User, ips: set<IP>, time: int, v: User, f: Field)
    requires Sound(s, seen) && v != u
    requires var h := Hash(ReplaceUser(s, n, u, ips, time), v); f in h && Live(h[f], s.clock)
    ensures Backed(Record(seen, n, u, ips, time), v, f, Hash(ReplaceUser(s, n, u, ips, time), v)[f])
  {
    ReplaceElsewhere(s, n, u, ips, time, v);
    assert v in s.devices && f in s.devices[v].value;
  }

  lemma ReplaceHeld(s: Store, n: Node, u: User, ips: set<IP>, time: int, p: (Node, User), r: Report)
    requires Tagged(s) && Held(s, p.0, p.1, r) && p != (n, u) && r.ips != {}
    requires r.time * 1000 <= s.clock
    ensures Held(ReplaceUser(s, n, u, ips, time), p.0, p.1, r)
  {
    var s' := ReplaceUser(s, n, u, ips, time);
    if p.1 == u {
      forall ip | ip in r.ips
        ensures Field(p.0, ip) in Hash(s', u) && Hash(s', u)[Field(p.0, ip)] == r.time
      {
        ReplaceHash(s, n, u, ips, time, Field(p.0, ip));
        assert Field(p.0, ip) in Hash(s, u);
      }
      var some :| some in r.ips;
      assert Field(p.0, some) in Hash(s', u);
    } else {
      assert s'.devices[p.1] == s.devices[p.1];
    }
  }

  lemma ReplaceHeldOwn(s: Store, n: Node, u: User, ips: set<IP>, time: int)
    requires ips != {} && time * 1000 <= s.clock
    ensures Held(ReplaceUser(s, n, u, ips, time), n, u, Report(ips, time))
  {
    forall ip | ip in ips
      ensures Field(n, ip) in FieldsFor(n, ips)
    {
    }
  }

  lemma ReplaceUserAgrees(s: Store, seen: Seen, n: Node, u: User, ips: set<IP>, time: int)
    requires Agrees(s, seen)
    requires time * 1000 <= s.clock
    ensures Agrees(ReplaceUser(s, n, u, ips, time), Record(seen, n, u, ips, time))
  {
    var s' := ReplaceUser(s, n, u, ips, time);
    var seen' := Record(seen, n, u, ips, time);
    ReplaceSound(s, seen, n, u, ips, time);
    assert Plausible(s', seen');
    forall p | p in seen' && Live(seen'[p].time, s'.clock)
      ensures Held(s', p.0, p.1, seen'[p])
    {
      if p != (n, u) {
        assert p in seen && seen[p] == seen'[p];
        ReplaceHeld(s, n, u, ips, time, p, seen[p]);
      } else {
        ReplaceHeldOwn(s, n, u, ips, time);
      }
    }
  }

  lemma CleanupHash(s: Store, u: User, v: User)
    ensures Hash(Cleanup(s, u), v) == if v == u then Hash(s, u) - StaleFields(s, u) else Hash(s, v)
    ensures LiveFields(Cleanup(s, u), v) == LiveFields(s, v)
  {
  }

  /** A listing keeps every live field and the index entries that lead to it. */
  lemma CleanupAgrees(s: Store, seen: Seen, u: User)
    requires Agrees(s, seen)
    ensures Agrees(Cleanup(s, u), seen)
    ensures forall v :: LiveFields(Cleanup(s, u), v) == LiveFields(s, v)
  {
    forall n | n in QuietNodes(s, u) && (n, u) in seen ensures !Live(seen[(n, u)].time, s.clock) {
      assert Live(seen[(n, u)].time, s.clock) ==> Held(s, n, u, seen[(n, u)]);
    }
    LateCleanupAgrees(s, seen, u, StaleFields(s, u), QuietNodes(s, u));
    forall v ensures LiveFields(Cleanup(s, u), v) == LiveFields(s, v) {
      CleanupHash(s, u, v);
    }
  }

  /** What a listing has found stale, and the nodes it has found without a live field, are so still. */
  ghost predicate StillStale(s: Store, seen: Seen, u: User, stale: set<Field>, quiet: set<Node>) {
    && (forall f :: f in stale ==> f !in LiveFields(s, u))
    && (forall n :: n in quiet && (n, u) in seen ==> !Live(seen[(n, u)].time, s.clock))
  }

  /** A clean-up that comes after its listing is harmless if and only if none of its fields, and no report of its nodes
      for the user, has become live in the meantime. */
  lemma LateCleanupIsSafeIff(s: Store, seen: Seen, u: User, stale: set<Field>, quiet: set<Node>)
    requires Agrees(s, seen)
    ensures Agrees(CleanupWith(s, u, stale, quiet), seen) <==> StillStale(s, seen, u, stale, quiet)
  {
    var t := CleanupWith(s, u, stale, quiet);
    if Agrees(t, seen) {
      forall f | f in stale ensures f !in LiveFields(s, u) {
        assert f in LiveFields(s, u) ==> Held(t, f.node, u, seen[(f.node, u)]);
        assert f == Field(f.node, f.ip);
      }
      forall n | n in quiet && (n, u) in seen ensures !Live(seen[(n, u)].time, s.clock) {
        assert Live(seen[(n, u)].time, s.clock) ==> Held(t, n, u, seen[(n, u)]);
      }
    }
    if StillStale(s, seen, u, stale, quiet) {
      LateCleanupAgrees(s, seen, u, stale, quiet);
    }
  }

  lemma LateCleanupAgrees(s: Store, seen: Seen, u: User, stale: set<Field>, quiet: set<Node>)
    requires Agrees(s, seen) && StillStale(s, seen, u, stale, quiet)
    ensures Agrees(CleanupWith(s, u, stale, quiet), seen)
  {
    var t := CleanupWith(s, u, stale, quiet);
    forall p | p in seen && Live(seen[p].time, s.clock) ensures Held(t, p.0, p.1, seen[p]) {
      LateCleanupHeld(s, u, stale, quiet, p, seen[p]);
    }
    forall v, f | v in t.devices && f in t.devices[v].value && Live(t.devices[v].value[f], t.clock)
      ensures Backed(seen, v, f, t.devices[v].value[f])
    {
      assert v in s.devices && f in s.devices[v].value && s.devices[v].value[f] == t.devices[v].value[f];
    }
  }

  lemma LateCleanupHeld(s: Store, u: User, stale: set<Field>, quiet: set<Node>, p: (Node, User), r: Report)
    requires Held(s, p.0, p.1, r) && Live(r.time, s.clock) && r.ips != {}
    requires p.1 == u ==> p.0 !in quiet && forall f :: f in stale ==> f !in LiveFields(s, u)
    ensures Held(CleanupWith(s, u, stale, quiet), p.0, p.1, r)
  {
    var some :| some in r.ips;
    var f := Field(p.0, some);
    assert f in s.devices[p.1].value;
    if p.1 == u {
      forall ip | ip in r.ips ensures Field(p.0, ip) !in stale {
        assert Field(p.0, ip) in LiveFields(s, u);
      }
    }
  }

  function ForgetUser(seen: Seen, u: User): Seen {
    map p | p in seen && p.1 != u :: seen[p]
  }

  lemma ClearUserAgrees(s: Store, seen: Seen, u: User, nodes: set<Node>)
    requires Agrees(s, seen)
    ensures Agrees(ClearUserAt(s, u, nodes), ForgetUser(seen, u))
    ensures LiveFields(ClearUserAt(s, u, nodes), u) == map[]
  {
    var s' := ClearUserAt(s, u, nodes);
    forall p | p in ForgetUser(seen, u) && Live(seen[p].time, s.clock)
      ensures Held(s', p.0, p.1, seen[p])
    {
      assert Held(s, p.0, p.1, seen[p]);
    }
  }

  // Clearing a node: the scripts for every indexed user, then the index itself.

  function ForgetPairs(seen: Seen, n: Node, users: set<User>): Seen {
    map p | p in seen && !(p.0 == n && p.1 in users) :: seen[p]
  }

  lemma {:induction false} DropUsersAgrees(s: Store, seen: Seen, n: Node, users: seq<User>)
    requires Agrees(s, seen)
    ensures Agrees(DropUsers(s, n, users), ForgetPairs(seen, n, set u | u in users))
    decreases |users|
  {
    if users == [] {
      assert ForgetPairs(seen, n, set u | u in users) == seen;
    } else {
      var seen1 := Record(seen, n, users[0], {}, 0);
      ReplaceUserAgrees(s, seen, n, users[0], {}, 0);
      DropUsersAgrees(ReplaceUser(s, n, users[0], {}, 0), seen1, n, users[1..]);
      assert (set u | u in users) == (set u | u in users[1..]) + {users[0]};
      assert ForgetPairs(seen1, n, set u | u in users[1..]) == ForgetPairs(seen, n, set u | u in users);
    }
  }

  function ClearNode(s: Store, n: Node, users: seq<User>): Store {
    var dropped := DropUsers(Bump(s, n), n, users);
    dropped.(nodeUsers := dropped.nodeUsers - {n})
  }

  function ForgetNode(seen: Seen, n: Node): Seen {
    map p | p in seen && p.0 != n :: seen[p]
  }

  lemma BumpAgrees(s: Store, seen: Seen, n: Node)
    requires Agrees(s, seen)
    ensures Agrees(Bump(s, n), seen)
  {
    forall p | p in seen && Live(seen[p].time, s.clock)
      ensures Held(Bump(s, n), p.0, p.1, seen[p])
    {
      assert Held(s, p.0, p.1, seen[p]);
    }
  }

  /** The index may go once none of the reports it leads to is live. */
  lemma UnindexAgrees(s: Store, seen: Seen, n: Node)
    requires Agrees(s, seen)
    requires forall p :: p in seen && p.0 == n ==> !Live(seen[p].time, s.clock)
    ensures Agrees(s.(nodeUsers := s.nodeUsers - {n}), ForgetNode(seen, n))
  {
    var s' := s.(nodeUsers := s.nodeUsers - {n});
    forall p | p in ForgetNode(seen, n) && Live(seen[p].time, s.clock)
      ensures Held(s', p.0, p.1, seen[p])
    {
      assert Held(s, p.0, p.1, seen[p]);
    }
  }

  /** Deleting the index of a node is harmless if and only if the node has no live report left. */
  lemma IndexDeleteIsSafeIff(s: Store, seen: Seen, n: Node)
    requires Agrees(s, seen)
    ensures Agrees(s.(nodeUsers := s.nodeUsers - {n}), seen) <==>
      forall p :: p in seen && p.0 == n ==> !Live(seen[p].time, s.clock)
  {
    var s' := s.(nodeUsers := s.nodeUsers - {n});
    if Agrees(s', seen) {
      forall p | p in seen && p.0 == n ensures !Live(seen[p].time, s.clock) {
        assert Live(seen[p].time, s.clock) ==> Held(s', n, p.1, seen[p]);
      }
    }
    if forall p :: p in seen && p.0 == n ==> !Live(seen[p].time, s.clock) {
      forall p | p in seen && Live(seen[p].time, s.clock) ensures Held(s', p.0, p.1, seen[p]) {
        assert Held(s, p.0, p.1, seen[p]);
      }
    }
  }

  /** Clearing through the index misses nothing: no live observation of the node is left for any user. */
  lemma ClearNodeAgrees(s: Store, seen: Seen, n: Node, users: seq<User>)
    requires Agrees(s, seen)
    requires forall u :: u in NodeUsers(s, n) ==> u in users
    ensures Agrees(ClearNode(s, n, users), ForgetNode(seen, n))
  {
    BumpAgrees(s, seen, n);
    DropUsersAgrees(Bump(s, n), seen, n, users);
    DropUsersClock(Bump(s, n), n, users);
    var left := ForgetPairs(seen, n, set u | u in users);
    forall p | p in seen && p.0 == n && Live(seen[p].time, s.clock)
      ensures p.1 in users
    {
      assert Held(s, p.0, p.1, seen[p]);
      assert p.1 in NodeUsers(s, n);
    }
    UnindexAgrees(DropUsers(Bump(s, n), n, users), left, n);
    assert ForgetNode(left, n) == ForgetNode(seen, n);
  }

  lemma {:induction false} DropUsersClock(s: Store, n: Node, users: seq<User>)
    ensures DropUsers(s, n, users).clock == s.clock
    ensures DropUsers(s, n, users).generation == s.generation
    decreases |users|
  {
    if users != [] {
      DropUsersClock(ReplaceUser(s, n, users[0], {}, 0), n, users[1..]);
    }
  }

  // Time: the clock moves on, and keys whose retention has run out disappear.

  datatype Lapse =
    | Devices(user: User)
    | NodeIndex(node: Node)
    | UserIndex(user: User)
    | FieldIndex(user: User, node: Node)
    | Generation(node: Node)

  predicate CanLapse(s: Store, l: Lapse) {
    match l
    case Devices(u) => u in s.devices && s.devices[u].expires <= s.clock
    case NodeIndex(n) => n in s.nodeUsers && s.nodeUsers[n].expires <= s.clock
    case UserIndex(u) => u in s.userNodes && s.userNodes[u].expires <= s.clock
    case FieldIndex(u, n) => (u, n) in s.fields && s.fields[(u, n)].expires <= s.clock
    case Generation(n) => n in s.generation && s.generation[n].expires <= s.clock
  }

  function Drop(s: Store, l: Lapse): Store {
    match l
    case Devices(u) => s.(devices := s.devices - {u})
    case NodeIndex(n) => s.(nodeUsers := s.nodeUsers - {n})
    case UserIndex(u) => s.(userNodes := s.userNodes - {u})
    case FieldIndex(u, n) => s.(fields := s.fields - {(u, n)})
    case Generation(n) => s.(generation := s.generation - {n})
  }

  /** Retention is long enough: a key that may lapse holds nothing a live report needs. */
  lemma LapseAgrees(s: Store, seen: Seen, l: Lapse)
    requires Agrees(s, seen) && CanLapse(s, l)
    ensures Agrees(Drop(s, l), seen)
  {
    var s' := Drop(s, l);
    forall p | p in seen && Live(seen[p].time, s'.clock)
      ensures Held(s', p.0, p.1, seen[p])
    {
      assert Held(s, p.0, p.1, seen[p]);
    }
  }

  lemma LiveEarlier(time: int, clock: nat, later: nat)
    requires clock <= later && Live(time, later)
    ensures Live(time, clock)
  {
    assert Unix(clock) <= Unix(later);
  }

  lemma AdvanceAgrees(s: Store, seen: Seen, clock: nat)
    requires Agrees(s, seen) && s.clock <= clock
    ensures Agrees(s.(clock := clock), seen)
  {
    var s' := s.(clock := clock);
    forall t | Live(t, clock) ensures Live(t, s.clock) {
      LiveEarlier(t, s.clock, clock);
    }
    forall p | p in seen && Live(seen[p].time, clock)
      ensures Held(s', p.0, p.1, seen[p])
    {
      assert Held(s, p.0, p.1, seen[p]);
    }
  }
}
