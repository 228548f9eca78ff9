/** The device-state service as it runs: scripts and pipelines change the Redis keys step by step,
    and every operation ends by notifying the users it touched. */
module DeviceService {
  import opened Collections
  import opened Ordering
  import opened DeviceStore
  import opened DeviceSummaries
  import opened DeviceMeaning
  import DueQueue

  const MAXIMUM_INDEX_MEMBERS := 1_000_000
  const MAXIMUM_FLUSH_LIMIT := 5_000
  const MAXIMUM_DEVICES_PER_USER := 64

  lemma HashRemoveTwice<K, F, V>(m: map<K, Key<map<F, V>>>, k: K, a: set<F>, b: set<F>)
    ensures HashRemove(HashRemove(m, k, a), k, b) == HashRemove(m, k, a + b)
  {
    if k in m && !Emptied(m[k].value.Keys, a) {
      var rest := m[k].value - a;
      assert m[k].value - (a + b) == rest - b;
      assert rest.Keys == m[k].value.Keys - a;
    }
  }

  lemma HashRemoveNone<K, F, V>(m: map<K, Key<map<F, V>>>, k: K)
    ensures HashRemove(m, k, {}) == m
  {
    if k in m {
      assert m[k].value - {} == m[k].value;
    }
  }

  /** Valid addresses in first-use order, each once, at most as many as a user may have. */
  function Normalized(values: seq<string>, parse: string -> Option<IP>): (r: seq<IP>)
    ensures |r| <= MAXIMUM_DEVICES_PER_USER
    ensures forall i, j :: 0 <= i < j < |r| ==> r[i] != r[j]
    ensures forall ip :: ip in r ==> exists v :: v in values && parse(v) == Some(ip)
    ensures |r| < MAXIMUM_DEVICES_PER_USER ==> forall v :: v in values && parse(v).Some? ==> parse(v).value in r
  {
    if values == [] then []
    else
      var n := |values| - 1;
      var before := Normalized(values[..n], parse);
      assert forall v :: v in values ==> v in values[..n] || v == values[n];
      if parse(values[n]).None? || parse(values[n]).value in before || |before| == MAXIMUM_DEVICES_PER_USER then before
      else before + [parse(values[n]).value]
  }

  /** Once a user has as many addresses as allowed, the rest of the list does not matter. */
  lemma {:induction false} NormalizedIsFull(values: seq<string>, parse: string -> Option<IP>, n: nat)
    requires n <= |values| && |Normalized(values[..n], parse)| == MAXIMUM_DEVICES_PER_USER
    ensures Normalized(values, parse) == Normalized(values[..n], parse)
    decreases |values|
  {
    if n == |values| {
      assert values[..n] == values;
    } else {
      assert values[..|values| - 1][..n] == values[..n];
      NormalizedIsFull(values[..|values| - 1], parse, n);
    }
  }

  lemma {:induction false} Distincts(ips: seq<IP>)
    requires forall i, j :: 0 <= i < j < |ips| ==> ips[i] != ips[j]
    ensures |AsSet(ips)| == |ips|
  {
    if ips != [] {
      var n := |ips| - 1;
      Distincts(ips[..n]);
      assert AsSet(ips) == AsSet(ips[..n]) + {ips[n]};
    }
  }

  /** Short of the maximum the result is all that the list names; at the maximum the list names no fewer. */
  lemma {:induction false} NormalizedNames(values: seq<string>, parse: string -> Option<IP>)
    ensures AsSet(Normalized(values, parse)) <= Named(values, |values|, parse)
    ensures |Normalized(values, parse)| < MAXIMUM_DEVICES_PER_USER ==>
      AsSet(Normalized(values, parse)) == Named(values, |values|, parse)
  {
    if values != [] {
      var n := |values| - 1;
      NormalizedNames(values[..n], parse);
      assert Named(values[..n], n, parse) == Named(values, n, parse);
      NamedMore(values, n, parse);
      var before := Normalized(values[..n], parse);
      assert Normalized(values, parse) == before || Normalized(values, parse) == before + [parse(values[n]).value];
    }
  }

  /** As many different addresses as the list names, up to the maximum. */
  lemma NormalizedSize(values: seq<string>, parse: string -> Option<IP>)
    ensures |Normalized(values, parse)| < MAXIMUM_DEVICES_PER_USER <==> |Named(values, |values|, parse)| < 64
  {
    NormalizedNames(values, parse);
    Distincts(Normalized(values, parse));
    SubsetSize(AsSet(Normalized(values, parse)), Named(values, |values|, parse));
  }

  /** The result has exactly the first 64 different addresses of the list. */
  lemma {:induction false} NormalizedIsFirst64(values: seq<string>, parse: string -> Option<IP>, ip: IP)
    ensures ip in Normalized(values, parse) <==> Counts64(values, parse, ip)
  {
    if values != [] {
      var n := |values| - 1;
      NormalizedIsFirst64(values[..n], parse, ip);
      NormalizedSize(values[..n], parse);
      assert Named(values[..n], n, parse) == Named(values, n, parse);
      assert values[..n + 1] == values;
      SameCounts(values, n, parse, ip);
    }
  }

  method NormalizeIPs(values: seq<string>, parse: string -> Option<IP>) returns (result: seq<IP>)
    ensures result == Normalized(values, parse)
  {
    result := [];
    var seen: set<IP> := {};
    for n := 0 to |values|
      invariant result == Normalized(values[..n], parse) && |result| < MAXIMUM_DEVICES_PER_USER
      invariant forall ip :: ip in seen <==> ip in result
    {
      assert values[..n + 1][..n] == values[..n];
      var ip := parse(values[n]);
      if ip.None? || ip.value in seen {
        continue;
      }
      seen := seen + {ip.value};
      result := result + [ip.value];
      if |result| == MAXIMUM_DEVICES_PER_USER {
        NormalizedIsFull(values, parse, n + 1);
        return;
      }
    }
    assert values[..|values|] == values;
  }

  /** Checks the users of a report and normalizes their addresses. */
  method NormalizeReport(devices: map<User, seq<string>>,
                         parse: string -> Option<IP>) returns (r: Option<map<User, seq<IP>>>)
    ensures r.None? <==> exists u :: u in devices && u < 1
    ensures r.Some? ==> r.value == NormalizedAll(devices, parse)
    ensures r.Some? ==> Asks(Sets(r.value), devices, parse)
  {
    var normalized: map<User, seq<IP>>, left := map[], devices.Keys;
    while left != {}
      invariant left <= devices.Keys && normalized.Keys == devices.Keys - left
      invariant forall u :: u in normalized ==> u >= 1 && normalized[u] == Normalized(devices[u], parse)
      decreases left
    {
      var u := AnyOf(left);
      if u < 1 {
        return None;
      }
      var ips := NormalizeIPs(devices[u], parse);
      normalized, left := normalized[u := ips], left - {u};
    }
    assert forall u :: u in normalized <==> u in NormalizedAll(devices, parse);
    r := Some(normalized);
    AllFirst64(devices, parse);
  }

  lemma AllFirst64(devices: map<User, seq<string>>, parse: string -> Option<IP>)
    ensures Asks(Sets(NormalizedAll(devices, parse)), devices, parse)
  {
    var sets := Sets(NormalizedAll(devices, parse));
    forall u, ip | u in devices
      ensures ip in sets[u] <==> Counts64(devices[u], parse, ip)
    {
      assert sets[u] == AsSet(Normalized(devices[u], parse));
      NormalizedIsFirst64(devices[u], parse, ip);
    }
  }

  function LiveKeys(hash: map<Field, int>, done: set<Field>, clock: nat): set<Field> {
    set f | f in done && f in hash && Live(hash[f], clock)
  }

  function Nodes(fields: set<Field>): set<Node> {
    set f | f in fields :: f.node
  }

  function IPs(fields: set<Field>): set<IP> {
    set f | f in fields :: f.ip
  }

  /** `next` is the first lapse among some live fields, or 0 when there are none. */
  ghost predicate FirstLapse(hash: map<Field, int>, live: set<Field>, next: int) {
    && (next == 0 <==> live == {})
    && (live != {} ==> exists f :: f in live && f in hash && next == LapseAt(hash[f]))
    && (forall f :: f in live && f in hash ==> next <= LapseAt(hash[f]))
  }

  lemma FirstLapseIsNext(s: Store, u: User, next: int)
    requires FirstLapse(Hash(s, u), LiveFields(s, u).Keys, next)
    ensures LiveFields(s, u) == map[] <==> next == 0
    ensures LiveFields(s, u) != map[] ==> next == NextLapse(s, u)
  {
    var live := LiveFields(s, u);
    assert live.Keys == {} <==> live == map[];
    if live != map[] {
      var f :| f in live && next == LapseAt(live[f]);
      assert live[f] in Times(s, u);
      var g :| g in live && live[g] == Least(Times(s, u));
    }
  }

  lemma FirstLapseMore(hash: map<Field, int>, live: set<Field>, next: int, f: Field, clock: nat)
    requires FirstLapse(hash, live, next) && f in hash && Live(hash[f], clock)
    requires forall g :: g in live ==> g in hash && Live(hash[g], clock)
    ensures FirstLapse(hash, live + {f}, if next == 0 || LapseAt(hash[f]) < next then LapseAt(hash[f]) else next)
  {
    LapseIsExact(hash[f], clock);
    var next' := if next == 0 || LapseAt(hash[f]) < next then LapseAt(hash[f]) else next;
    assert f in live + {f};
    if next' == next && next != 0 {
      var g :| g in live && g in hash && next == LapseAt(hash[g]);
      assert g in live + {f};
    }
    if live == {} {
      assert forall g :: g in live + {f} ==> g == f;
    }
  }

  lemma QuietIsInactive(s: Store, u: User)
    ensures QuietNodes(s, u) == Nodes(Hash(s, u).Keys) - Nodes(LiveFields(s, u).Keys)
  {
    var hash := Hash(s, u);
    forall n | n in Nodes(hash.Keys) - Nodes(LiveFields(s, u).Keys) ensures n in QuietNodes(s, u) {
      var f :| f in hash.Keys && f.node == n;
      forall g | g in hash && g.node == n ensures g in StaleFields(s, u) {
        assert g !in LiveFields(s, u).Keys;
      }
      assert f in StaleFields(s, u);
    }
    forall n | n in QuietNodes(s, u) ensures n !in Nodes(LiveFields(s, u).Keys) {
    }
  }

  lemma NothingStale(s: Store, u: User)
    requires StaleFields(s, u) == {}
    ensures Cleanup(s, u) == s
  {
    assert QuietNodes(s, u) == {};
    HashRemoveNone(s.devices, u);
    assert forall k :: k in s.fields ==> s.fields[k].value - {} == s.fields[k].value;
    assert CleanupWith(s, u, {}, {}).fields == s.fields;
    assert CleanupWith(s, u, {}, {}).nodeUsers == s.nodeUsers;
    if u in s.userNodes {
      assert s.userNodes[u].value - {} == s.userNodes[u].value;
    }
  }

  class RedisService {
    var redis: Store
    var ledger: Ledger
    ghost var seen: Seen
    const delay: nat

    ghost function View(): System
      reads this
    {
      System(redis, seen, ledger)
    }

    ghost predicate Valid()
      reads this
    {
      ValidDelay(delay) && Good(View(), delay)
    }

    constructor (clock: nat, throttle: nat)
      requires ValidDelay(throttle)
      ensures Valid() && Fresh(View()) && delay == throttle
    {
      redis := Store(clock, map[], map[], map[], map[], map[]);
      ledger := Ledger(map[], map[], map[], map[], []);
      seen := map[];
      delay := throttle;
      new;
      assert forall u :: LiveFields(redis, u) == map[];
    }

    /** Between calls time passes, and Redis drops keys whose time has run out. */
    method Elapse(clock: nat, lapsed: set<Lapse>, released: set<User>)
      requires Valid() && redis.clock <= clock
      modifies this`redis, this`ledger
      ensures Valid() && redis.clock == clock && seen == old(seen)
      ensures forall u :: LiveFields(redis, u) == LiveFields(old(redis).(clock := clock), u)
    {
      EventGood(View(), Wait(clock), delay);
      redis := redis.(clock := clock);
      ghost var s := redis;
      var keys, users := lapsed, released;
      while keys != {}
        invariant Valid() && ledger == old(ledger) && seen == old(seen)
        invariant redis.clock == clock && forall u :: LiveFields(redis, u) == LiveFields(s, u)
        decreases keys
      {
        var l := AnyOf(keys);
        if CanLapse(redis, l) {
          EventGood(View(), LoseDeviceKey(l), delay);
          LapseKeepsLive(redis, seen, l);
          redis := Drop(redis, l);
        }
        keys := keys - {l};
      }
      while users != {}
        invariant Valid() && seen == old(seen)
        invariant redis.clock == clock && forall u :: LiveFields(redis, u) == LiveFields(s, u)
        decreases users
      {
        var u := AnyOf(users);
        if u in ledger.throttle && ledger.throttle[u] <= clock {
          EventGood(View(), LoseReservation(u), delay);
          ledger := ledger.(throttle := ledger.throttle - {u});
        }
        users := users - {u};
      }
    }

    method Bumped(n: Node) returns (generation: int)
      modifies this`redis
      ensures redis == Bump(old(redis), n)
      ensures generation == GenerationOf(redis, n) == GenerationOf(old(redis), n) + 1
      ensures forall m :: m != n ==> GenerationOf(redis, m) == GenerationOf(old(redis), m)
      // from now on every script of an earlier generation is refused
      ensures forall u, ips, time, g :: g < generation ==> Replace(redis, n, u, ips, time, g) == redis
    {
      redis := Bump(redis, n);
      generation := GenerationOf(redis, n);
    }

    /** The first half of the replacement script: the indexed fields of the pair leave the hash. */
    method RemoveIndexed(n: Node, u: User) returns (removed: nat)
      modifies this`redis
      ensures redis == old(redis).(devices := HashRemove(old(redis).devices, u, FieldsOf(old(redis), u, n)))
      ensures removed == |FieldsOf(old(redis), u, n) * Hash(old(redis), u).Keys|
    {
      var devices;
      devices, removed := DeleteFields(redis.devices, u, FieldsOf(redis, u, n));
      redis := redis.(devices := devices);
    }

    /** The second half, for a nonempty report: fields, their index, and both other indexes, with expiries. */
    method WriteFields(n: Node, u: User, ips: seq<IP>, time: int)
      requires ips != []
      modifies this`redis
      ensures redis == Written(old(redis), n, u, AsSet(ips), time)
    {
      var hash, members := Hash(redis, u), {};
      for i := 0 to |ips|
        invariant members == FieldsFor(n, AsSet(ips[..i]))
        invariant hash == Hash(redis, u) + (map f | f in members :: time)
      {
        var f := Field(n, ips[i]);
        assert AsSet(ips[..i + 1]) == AsSet(ips[..i]) + {ips[i]};
        hash, members := hash[f := time], members + {f};
      }
      assert ips[..|ips|] == ips;
      redis := redis.(devices := redis.devices[u := Key(hash, StateExpiry(redis))]);
      redis := redis.(fields := redis.fields[(u, n) := Key(members, StateExpiry(redis))]);
      redis := redis.(nodeUsers := redis.nodeUsers[n := Key(NodeUsers(redis, n) + {u}, IndexExpiry(redis))]);
      redis := redis.(userNodes := redis.userNodes[u := Key(UserNodes(redis, u) + {n}, IndexExpiry(redis))]);
    }

    /** The replacement script for one user of a node. */
    method ReplaceNodeUser(n: Node, u: User, ips: seq<IP>, time: int, generation: int) returns (changed: int)
      modifies this`redis
      ensures redis == Replace(old(redis), n, u, AsSet(ips), time, generation)
      ensures changed == if GenerationOf(old(redis), n) != generation then -1
                         else |FieldsOf(old(redis), u, n) * Hash(old(redis), u).Keys|
    {
      if GenerationOf(redis, n) != generation {
        return -1;
      }
      changed := RemoveIndexed(n, u);
      redis := redis.(fields := redis.fields - {(u, n)});
      if |ips| > 0 {
        WriteFields(n, u, ips, time);
        assert ips[0] in AsSet(ips);
      } else {
        redis := redis.(nodeUsers := SetRemove(redis.nodeUsers, n, {u}),
          userNodes := SetRemove(redis.userNodes, u, {n}));
      }
    }

    /** One user of a listing: the hash is read field by field, and cleaned when something is stale. */
    method ListOne(u: User) returns (values: seq<IP>, next: int)
      modifies this`redis
      ensures redis == Cleanup(old(redis), u)
      ensures Sorted(values) && AsSet(values) == LiveIPs(old(redis), u)
      ensures LiveFields(old(redis), u) == map[] <==> next == 0
      ensures LiveFields(old(redis), u) != map[] ==> next == NextLapse(old(redis), u)
    {
      var hash := Hash(redis, u);
      var ips, stale, active, nodes;
      ips, stale, active, nodes, next := ScanHash(hash, redis.clock);
      assert LiveKeys(hash, hash.Keys, redis.clock) == LiveFields(redis, u).Keys;
      FirstLapseIsNext(redis, u, next);
      QuietIsInactive(redis, u);
      assert stale == StaleFields(redis, u);
      if stale != {} {
        redis := CleanupWith(redis, u, stale, nodes - active);
      } else {
        NothingStale(redis, u);
      }
      values := SortStrings(ips);
    }

    /** The listing a notification makes: rows to write, and the next lapse of everybody still online. */
    method Observe(now: seq<User>) returns (rows: seq<Summary>, expiries: map<User, int>)
      requires Agrees(redis, seen)
      modifies this`redis
      ensures redis == CleanupAll(old(redis), now)
      ensures rows == Rows(old(redis), now) && expiries == Expiries(old(redis), now)
    {
      rows, expiries := [], map[];
      ghost var s := redis;
      for i := 0 to |now|
        invariant CleanupAll(redis, now[i..]) == CleanupAll(s, now)
        invariant Agrees(redis, seen) && ShowsTheSame(s, redis)
        invariant rows == Rows(s, now[..i]) && expiries == Expiries(s, now[..i])
      {
        var u := now[i];
        assert now[i..][0] == u && now[i..][1..] == now[i + 1..] && now[..i + 1] == now[..i] + [u];
        assert LiveFields(redis, u) == LiveFields(s, u);
        CleanupShowsTheSame(s, redis, seen, u);
        var values, next := ListOne(u);
        SortedSize(values);
        rows := rows + [Summary(u, |values|, redis.clock)];
        if next != 0 {
          expiries := expiries[u := next];
        }
        RowsMore(s, now[..i], u);
        ExpiriesMore(s, now[..i], u);
      }
      assert now[..|now|] == now && now[|now|..] == [];
    }

    /** Write-behind for a set of users. */
    method NotifyUsers(order: seq<User>) returns (b: Batch)
      requires Agrees(redis, seen) && Distinct(order)
      modifies this`redis, this`ledger
      ensures b.order == order && Splits(old(ledger), b)
      ensures View() == Notify(old(View()), b, delay)
    {
      b := NotifyBatch(order);
    }

    method NotifyBatch(order: seq<User>) returns (b: Batch)
      requires Agrees(redis, seen) && Distinct(order)
      modifies this`redis, this`ledger
      ensures b.order == order && Splits(old(ledger), b)
      ensures redis == CleanupAll(old(redis), b.now)
      ensures ledger == Booked(old(ledger), old(redis), b, delay)
    {
      ghost var s := redis;
      var throttle, pending;
      b, throttle, pending := Split(ledger, order, redis.clock + delay);
      var rows, expiries := Observe(b.now);
      ledger := WriteBehind(ledger, throttle, pending, b.now, rows, expiries, s, b, delay);
    }

    /** Lists several users: for each of them the sorted addresses within the online window. */
    method ListUserDevices(users: seq<User>) returns (r: Result<map<User, seq<IP>>, string>)
      requires Valid()
      modifies this`redis
      ensures Valid()
      ensures r.Err? <==> |users| > 1_000_000 || exists i :: 0 <= i < |users| && users[i] < 1
      ensures r.Err? ==> redis == old(redis)
      ensures r.Ok? ==> exists order ::
        (Enumerates(order, AsSet(users)) && View() == After(old(View()), ListUsers(order), delay))
      ensures r.Ok? ==> forall u :: u in r.value <==> u in users && LiveIPs(old(redis), u) != {}
      ensures r.Ok? ==> forall u :: u in r.value ==> Sorted(r.value[u]) && AsSet(r.value[u]) == LiveIPs(old(redis), u)
      ensures r.Ok? ==> Shows(old(redis), users, r.value) && IndexesCleaned(old(redis), redis, users)
      ensures forall u :: LiveFields(redis, u) == LiveFields(old(redis), u)
    {
      if !ValidIds(users) {
        return Err("invalid device-state query");
      }
      var order := SortIds(AsSet(users));
      ghost var y := View();
      var found := ListEach(order);
      ListGood(y, order, delay);
      assert forall u :: (u in users <==> u in AsSet(users)) && (u in order <==> u in AsSet(order));
      ListingShows(y.store, users, found);
      ListingLeaves(y.store, users, order);
      r := Ok(found);
    }

    /** The users of a listing one after the other. */
    method ListEach(order: seq<User>) returns (found: map<User, seq<IP>>)
      requires Agrees(redis, seen)
      modifies this`redis
      ensures redis == CleanupAll(old(redis), order)
      ensures forall u :: u in found <==> u in order && LiveIPs(old(redis), u) != {}
      ensures forall u :: u in found ==> Sorted(found[u]) && AsSet(found[u]) == LiveIPs(old(redis), u)
    {
      found := map[];
      ghost var s := redis;
      for i := 0 to |order|
        invariant CleanupAll(redis, order[i..]) == CleanupAll(s, order)
        invariant Agrees(redis, seen) && ShowsTheSame(s, redis)
        invariant forall u :: u in found <==> u in order[..i] && LiveIPs(s, u) != {}
        invariant forall u :: u in found ==> Sorted(found[u]) && AsSet(found[u]) == LiveIPs(s, u)
      {
        var u := order[i];
        assert order[i..][0] == u && order[i..][1..] == order[i + 1..];
        CleanupShowsTheSame(s, redis, seen, u);
        assert LiveIPs(redis, u) == LiveIPs(s, u);
        var values, _ := ListOne(u);
        if |values| > 0 {
          assert values[0] in AsSet(values);
          found := found[u := values];
        } else {
          assert AsSet(values) == {};
        }
      }
      assert order[..|order|] == order && order[|order|..] == [];
    }

    /** Notifying nobody changes nothing, so the call is skipped. */
    method NotifyAny(order: seq<User>) returns (b: Batch)
      requires Agrees(redis, seen) && Distinct(order)
      modifies this`redis, this`ledger
      ensures b.order == order && Splits(old(ledger), b)
      ensures View() == Notify(old(View()), b, delay)
    {
      if |order| > 0 {
        b := NotifyUsers(order);
      } else {
        b := Batch([], [], []);
        NotifyNobody(View(), delay);
      }
    }

    /** The scripts of one replacement, one user after the other. */
    method RunScripts(n: Node, snapshot: map<User, seq<IP>>, order: seq<User>,
                      generation: int) returns (superseded: bool)
      modifies this`redis
      ensures superseded <==> GenerationOf(old(redis), n) != generation && order != []
      ensures superseded ==> redis == old(redis)
      ensures !superseded ==> redis == ReplaceUsers(old(redis), n, Sets(snapshot), order)
    {
      var time := Unix(redis.clock);
      ghost var s := redis;
      for i := 0 to |order|
        invariant ReplaceUsers(redis, n, Sets(snapshot), order[i..]) == ReplaceUsers(s, n, Sets(snapshot), order)
        invariant redis.clock == s.clock && redis.generation == s.generation
        invariant i > 0 ==> GenerationOf(s, n) == generation
        invariant i == 0 ==> redis == s
      {
        var u := order[i];
        var ips := if u in snapshot then snapshot[u] else [];
        ReplaceUsersNext(redis, n, Sets(snapshot), order, i);
        assert AsSet(ips) == Asked(Sets(snapshot), u);
        var changed := ReplaceNodeUser(n, u, ips, time, generation);
        if changed < 0 {
          return true;
        }
      }
      superseded := false;
    }

    /** A node reports the devices of its users; with `replaceAll`, users it no longer mentions lose theirs. */
    method ReplaceNodeDevices(n: Node, devices: map<User, seq<string>>, replaceAll: bool, parse: string -> Option<IP>)
      returns (r: Result<seq<User>, string>, ghost b: Batch)
      requires Valid()
      modifies this
      ensures Valid()
      ensures r.Err? <==> n < 1 || |devices| > MAXIMUM_INDEX_MEMBERS || exists u :: u in devices && u < 1
      ensures r.Err? ==> View() == old(View())
      ensures r.Ok? ==> r.value == b.order
      ensures r.Ok? ==> Possible(old(View()), Reporting(n, NormalizedAll(devices, parse), replaceAll, b))
      ensures r.Ok? ==> View() == After(old(View()), Reporting(n, NormalizedAll(devices, parse), replaceAll, b), delay)
      // what this means for a reader, told without the steps: see the predicate
      ensures r.Ok? ==> ReportSeen(old(View()), View(), n, devices, replaceAll, parse, r.value, delay)
    {
      b := Batch([], [], []);
      if n < 1 || |devices| > MAXIMUM_INDEX_MEMBERS {
        return Err("invalid device snapshot"), b;
      }
      var normalized := NormalizeReport(devices, parse);
      if normalized.None? {
        return Err("device snapshot contains an invalid user"), b;
      }
      ghost var y := View();
      var order;
      order, b := Report(n, normalized.value, replaceAll);
      ReportObserved(y, n, Sets(normalized.value), devices, replaceAll, parse, b, delay);
      r := Ok(order);
    }

    /** The report once it has been found valid: bump, scan, scripts and notification. */
    method Report(n: Node, snapshot: map<User, seq<IP>>, replaceAll: bool) returns (order: seq<User>, ghost b: Batch)
      requires Valid()
      modifies this
      ensures Valid() && order == b.order
      ensures Possible(old(View()), Reporting(n, snapshot, replaceAll, b))
      ensures View() == After(old(View()), Reporting(n, snapshot, replaceAll, b), delay)
    {
      ghost var y := View();
      var generation := Bumped(n);
      order := Affected(n, snapshot.Keys, replaceAll);
      b := Apply(n, snapshot, order, generation, y);
    }

    /** The users named, and those the node index lists when everything is replaced. */
    method Affected(n: Node, named: set<User>, replaceAll: bool) returns (order: seq<User>)
      ensures Distinct(order) && Enumerates(order, named + if replaceAll then NodeUsers(redis, n) else {})
    {
      var users := named;
      if replaceAll {
        users := users + NodeUsers(redis, n);
      }
      order := SortIds(users);
      assert named + {} == named;
    }

    method Apply(n: Node, snapshot: map<User, seq<IP>>, order: seq<User>, generation: int,
                 ghost y: System) returns (b: Batch)
      requires ValidDelay(delay) && Good(y, delay) && Distinct(order)
      requires View() == y.(store := Bump(y.store, n)) && generation == GenerationOf(redis, n)
      modifies this
      ensures Valid() && b.order == order && Splits(y.ledger, b)
      ensures View() == Notify(WithReport(y, n, Sets(snapshot), order), b, delay)
    {
      var superseded := RunScripts(n, snapshot, order, generation);
      BumpAgrees(y.store, y.seen, n);
      ReplaceUsersAgrees(Bump(y.store, n), y.seen, n, Sets(snapshot), order);
      seen := RecordAll(seen, n, Sets(snapshot), order, Unix(y.store.clock));
      assert View() == WithReport(y, n, Sets(snapshot), order);
      b := NotifyAny(order);
      ReplaceNodeGood(y, n, Sets(snapshot), b, delay);
    }

    /** Everything known about the devices of some users is dropped. */
    method ClearUserDevices(users: seq<User>) returns (r: Result<seq<User>, string>, ghost b: Batch)
      requires Valid()
      modifies this
      ensures Valid()
      ensures r.Err? <==> |users| > 1_000_000 || exists i :: 0 <= i < |users| && users[i] < 1
      ensures r.Err? ==> View() == old(View())
      ensures r.Ok? ==> r.value == b.order && Enumerates(b.order, AsSet(users))
      ensures r.Ok? ==> Possible(old(View()), ClearUsers(b)) && View() == After(old(View()), ClearUsers(b), delay)
      ensures r.Ok? ==> ClearSeen(old(View()), View(), users, r.value, delay)
    {
      b := Batch([], [], []);
      if !ValidIds(users) {
        return Err("invalid user device-state clear"), b;
      }
      ghost var y := View();
      var order := SortIds(AsSet(users));
      for i := 0 to |order|
        invariant ClearUsersStore(redis, order[i..]) == ClearUsersStore(y.store, order)
        invariant seen == y.seen && ledger == y.ledger
      {
        assert order[i..][0] == order[i] && order[i..][1..] == order[i + 1..];
        redis := ClearUser(redis, order[i]);
      }
      assert order[|order|..] == [];
      ClearUsersAgrees(y.store, y.seen, order);
      seen := ForgetUsers(seen, order);
      b := NotifyAny(order);
      ClearUsersGood(y, b, delay);
      ClearObserved(y, users, b, delay);
      r := Ok(order);
    }

    /** One clearing script, and whether it took something from the user. */
    method DropNodeUser(n: Node, u: User, generation: int) returns (refused: bool, lost: bool)
      modifies this`redis
      ensures refused <==> GenerationOf(old(redis), n) != generation
      ensures redis == if refused then old(redis) else ReplaceUser(old(redis), n, u, {}, 0)
      ensures !refused ==> (lost <==> FieldsOf(old(redis), u, n) * Hash(old(redis), u).Keys != {})
    {
      assert AsSet<IP>([]) == {};
      var removed := ReplaceNodeUser(n, u, [], Unix(redis.clock), generation);
      refused, lost := removed < 0, removed > 0;
    }

    /** The clearing scripts of one node, and the users they took something from. */
    method DropNodeUsers(n: Node, users: seq<User>, generation: int) returns (superseded: bool, stripped: set<User>)
      requires Distinct(users)
      modifies this`redis
      ensures superseded <==> GenerationOf(old(redis), n) != generation && users != []
      ensures superseded ==> redis == old(redis) && stripped == {}
      ensures !superseded ==> redis == DropUsers(old(redis), n, users) && stripped == Stripped(old(redis), n, users)
    {
      stripped := {};
      ghost var s := redis;
      for i := 0 to |users|
        invariant Dropped(s, redis, n, users, i, stripped)
        invariant i > 0 ==> GenerationOf(s, n) == generation
        invariant i == 0 ==> redis == s
      {
        DroppedMore(s, redis, n, users, i, stripped);
        var refused, lost := DropNodeUser(n, users[i], generation);
        if refused {
          return true, {};
        }
        if lost {
          stripped := stripped + {users[i]};
        }
      }
      superseded := false;
    }

    /** One node: bump, scan, scripts, and unless a newer operation took over, the index itself. */
    method ClearOneNode(n: Node) returns (users: seq<User>, stripped: set<User>)
      modifies this`redis
      ensures Enumerates(users, NodeUsers(old(redis), n)) && redis == ClearNode(old(redis), n, users)
      ensures stripped == Stripped(old(redis), n, users)
    {
      ghost var s := redis;
      var generation := Bumped(n);
      users := SortIds(NodeUsers(redis, n));
      var superseded;
      superseded, stripped := DropNodeUsers(n, users, generation);
      assert Stripped(Bump(s, n), n, users) == Stripped(s, n, users);
      if !superseded {
        redis := redis.(nodeUsers := redis.nodeUsers - {n});
      }
    }

    /** Everything some nodes reported is dropped, and the users who lost something are notified. */
    method ClearNodeDevices(nodes: seq<Node>)
      returns (r: Result<seq<User>, string>, ghost plan: seq<(Node, seq<User>)>, ghost b: Batch)
      requires Valid()
      modifies this
      ensures Valid()
      ensures r.Err? <==> |nodes| > 1_000_000 || exists i :: 0 <= i < |nodes| && nodes[i] < 1
      ensures r.Err? ==> View() == old(View())
      ensures r.Ok? ==> r.value == b.order && forall n :: n in nodes <==> exists i :: 0 <= i < |plan| && plan[i].0 == n
      ensures r.Ok? ==> Possible(old(View()), ClearNodes(plan, b))
      ensures r.Ok? ==> View() == After(old(View()), ClearNodes(plan, b), delay)
      ensures r.Ok? ==> ClearNodesSeen(old(View()), View(), nodes, r.value, delay)
    {
      b, plan := Batch([], [], []), [];
      if !ValidIds(nodes) {
        return Err("invalid node device-state clear"), plan, b;
      }
      ghost var y := View();
      var order := SortIds(AsSet(nodes));
      var affected;
      affected, plan := ClearEachNode(order);
      PlanCovers(nodes, order, plan);
      ClearNodesAgrees(y.store, y.seen, plan);
      seen := ForgetNodes(seen, plan);
      var touched := SortIds(affected);
      assert View() == WithoutNodes(y, plan);
      b := NotifyAny(touched);
      assert AsSet(b.order) == StrippedAll(y.store, plan);
      ClearNodesGood(y, plan, b, delay);
      ClearNodesObserved(y, nodes, plan, b, delay);
      r := Ok(touched);
    }

    method ClearEachNode(order: seq<Node>) returns (affected: set<User>, ghost plan: seq<(Node, seq<User>)>)
      modifies this`redis
      ensures Cleared(old(redis), plan, redis, affected)
      ensures |plan| == |order| && forall k :: 0 <= k < |order| ==> plan[k].0 == order[k]
    {
      affected, plan := {}, [];
      for i := 0 to |order|
        invariant Cleared(old(redis), plan, redis, affected)
        invariant |plan| == i && forall k :: 0 <= k < i ==> plan[k].0 == order[k]
      {
        ghost var before := redis;
        var users, stripped := ClearOneNode(order[i]);
        ClearedMore(old(redis), plan, before, affected, order[i], users);
        affected, plan := affected + stripped, plan + [(order[i], users)];
      }
    }

    /** Writes the users whose queue entries have come due, and acknowledges those entries. */
    method FlushPending(limit: int)
      returns (count: nat, ghost bound: nat, ghost due: seq<DueQueue.Due>, ghost b: Batch,
               ghost ps: seq<DueQueue.Entry>, ghost es: seq<DueQueue.Entry>)
      requires Valid()
      modifies this
      ensures Valid()
      ensures bound == if limit < 1 then 1 else if limit > MAXIMUM_FLUSH_LIMIT then MAXIMUM_FLUSH_LIMIT else limit
      ensures var e := DeviceSummaries.FlushPending(bound, due, b);
        Possible(old(View()), e) && View() == After(old(View()), e, delay) && count == |due|
      // the ranges read, the marks they give, and what is no longer due after the call
      ensures DueQueue.IsRange(old(ledger.pending), old(redis.clock), bound, ps)
      ensures DueQueue.IsRange(old(ledger.expiry), old(redis.clock), bound, es)
      ensures forall i :: 0 <= i < |due| ==> DueQueue.FoundIn(due[i], ps, es)
      ensures FlushSeen(old(View()), View(), ps, es, due, b.order, delay)
    {
      var most := if limit < 1 then 1 else if limit > MAXIMUM_FLUSH_LIMIT then MAXIMUM_FLUSH_LIMIT else limit;
      bound := most;
      ghost var y := View();
      var clock := redis.clock;
      var first := DueQueue.RangeByScore(ledger.pending, clock, most);
      var second := DueQueue.RangeByScore(ledger.expiry, clock, most);
      var found := DueQueue.ListDueSummaries(ledger.pending, ledger.expiry, clock, most, first, second);
      due, ps, es := found, first, second;
      var order := SortIds(DueUsers(found));
      b := NotifyAny(order);
      var pending := Acknowledge(ledger.pending, found, clock, true);
      var expiry := Acknowledge(ledger.expiry, found, clock, false);
      ledger := ledger.(pending := pending, expiry := expiry);
      FlushGood(y, bound, due, b, delay);
      FlushObserved(y, bound, ps, es, due, b, delay);
      count := |found|;
    }
  }

  lemma ListGood(y: System, order: seq<User>, delay: nat)
    requires ValidDelay(delay) && Good(y, delay)
    ensures Good(y.(store := CleanupAll(y.store, order)), delay)
    ensures forall u :: LiveFields(CleanupAll(y.store, order), u) == LiveFields(y.store, u)
  {
    CleanupAllAgrees(y.store, y.seen, order);
    EventGood(y, ListUsers(order), delay);
  }

  lemma ListingLeaves(s: Store, users: seq<User>, order: seq<User>)
    requires Enumerates(order, AsSet(users))
    ensures IndexesCleaned(s, CleanupAll(s, order), users)
  {
    var t := CleanupAll(s, order);
    forall u, n
      ensures u in NodeUsers(t, n) <==> u in NodeUsers(s, n) && !(u in users && Gone(s, u, n))
    {
      assert (u in users <==> u in AsSet(users)) && (u in order <==> u in AsSet(order));
      CleanupsIndex(s, order, n, u);
    }
  }

  lemma ListingShows(s: Store, users: seq<User>, found: map<User, seq<IP>>)
    requires forall u :: u in found <==> u in users && LiveIPs(s, u) != {}
    requires forall u :: u in found ==> AsSet(found[u]) == LiveIPs(s, u)
    ensures Shows(s, users, found)
  {
    forall u, ip
      ensures ip in LiveIPs(s, u) <==> exists m :: Field(m, ip) in LiveFields(s, u)
    {
      if ip in LiveIPs(s, u) {
        var f :| f in LiveFields(s, u) && f.ip == ip;
        assert f == Field(f.node, ip);
      }
      if m :| Field(m, ip) in LiveFields(s, u) {
        assert Field(m, ip).ip in LiveIPs(s, u);
      }
    }
    forall u, ip | u in found
      ensures ip in found[u] <==> ip in LiveIPs(s, u)
    {
      assert ip in found[u] <==> ip in AsSet(found[u]);
    }
    forall u
      ensures u in found <==> u in users && exists f :: f in LiveFields(s, u)
    {
      if f :| f in LiveFields(s, u) {
        assert f.ip in LiveIPs(s, u);
      } else {
        assert LiveIPs(s, u) == {};
      }
    }
  }

  /** The removal script for every due entry of one queue. */
  method Acknowledge(q: map<User, int>, due: seq<DueQueue.Due>, clock: int, pending: bool) returns (r: map<User, int>)
    ensures r == Kept(q, due, clock, pending)
  {
    r := q;
    for i := 0 to |due|
      invariant forall u :: u in r <==> u in q && !(Flagged(due[..i], u, pending) && q[u] <= clock)
      invariant forall u :: u in r ==> r[u] == q[u]
    {
      var u := due[i].user;
      FlaggedMore(due, i, pending);
      if (if pending then due[i].pending else due[i].expiry) && u in r && r[u] <= clock {
        r := r - {u};
      }
    }
    assert due[..|due|] == due;
    assert forall u :: u in r <==> u in Kept(q, due, clock, pending);
  }

  lemma FlaggedMore(due: seq<DueQueue.Due>, i: nat, pending: bool)
    requires i < |due|
    ensures forall u :: Flagged(due[..i + 1], u, pending) <==>
      Flagged(due[..i], u, pending) || (u == due[i].user && if pending then due[i].pending else due[i].expiry)
  {
    forall u
      ensures Flagged(due[..i + 1], u, pending) <==>
        Flagged(due[..i], u, pending) || (u == due[i].user && if pending then due[i].pending else due[i].expiry)
    {
      assert due[..i + 1][i] == due[i];
      assert forall k :: 0 <= k < i ==> due[..i + 1][k] == due[..i][k];
    }
  }

  /** The first `i` clearing scripts have run, from `s` to `t`. */
  ghost predicate Dropped(s: Store, t: Store, n: Node, users: seq<User>, i: nat, stripped: set<User>) {
    && i <= |users| && DropUsers(t, n, users[i..]) == DropUsers(s, n, users) && t.generation == s.generation
    && (forall k :: i <= k < |users| ==> SameFields(s, t, n, users[k]))
    && stripped == Stripped(s, n, users[..i])
  }

  /** What a script of the node will find for the user. */
  predicate SameFields(s: Store, t: Store, n: Node, u: User) {
    FieldsOf(t, u, n) == FieldsOf(s, u, n) && Hash(t, u) == Hash(s, u)
  }

  lemma DroppedMore(s: Store, t: Store, n: Node, users: seq<User>, i: nat, stripped: set<User>)
    requires Dropped(s, t, n, users, i, stripped) && i < |users| && Distinct(users)
    ensures var u := users[i]; var found := FieldsOf(t, u, n) * Hash(t, u).Keys;
      Dropped(s, ReplaceUser(t, n, u, {}, 0), n, users, i + 1, if found == {} then stripped else stripped + {u})
  {
    var u := users[i];
    var t' := ReplaceUser(t, n, u, {}, 0);
    assert SameFields(s, t, n, u);
    assert users[i..][0] == u && users[i..][1..] == users[i + 1..];
    forall k | i < k < |users| ensures SameFields(s, t', n, users[k]) {
      assert SameFields(s, t, n, users[k]);
      ReplaceElsewhere(t, n, u, {}, 0, users[k]);
    }
    StrippedMore(s, n, users, i);
  }

  lemma StrippedMore(s: Store, n: Node, users: seq<User>, i: nat)
    requires i < |users|
    ensures var before, u := Stripped(s, n, users[..i]), users[i];
      Stripped(s, n, users[..i + 1]) == if FieldsOf(s, u, n) * Hash(s, u).Keys == {} then before else before + {u}
  {
    var before, u := Stripped(s, n, users[..i]), users[i];
    assert users[..i + 1] == users[..i] + [u];
    var want := if FieldsOf(s, u, n) * Hash(s, u).Keys == {} then before else before + {u};
    assert forall v :: v in Stripped(s, n, users[..i + 1]) <==> v in want;
  }

  lemma ReplaceUsersNext(s: Store, n: Node, snapshot: map<User, set<IP>>, order: seq<User>, i: nat)
    requires i < |order|
    ensures var t := ReplaceUser(s, n, order[i], Asked(snapshot, order[i]), Unix(s.clock));
      && ReplaceUsers(s, n, snapshot, order[i..]) == ReplaceUsers(t, n, snapshot, order[i + 1..])
      && t.clock == s.clock && t.generation == s.generation
  {
    assert order[i..][0] == order[i] && order[i..][1..] == order[i + 1..];
  }

  lemma {:induction false} PlanMore(s: Store, plan: seq<(Node, seq<User>)>, n: Node, users: seq<User>)
    requires ScansFit(s, plan) && Enumerates(users, NodeUsers(ClearNodesStore(s, plan), n))
    ensures var more := plan + [(n, users)];
      && ScansFit(s, more)
      && ClearNodesStore(s, more) == ClearNode(ClearNodesStore(s, plan), n, users)
      && StrippedAll(s, more) == StrippedAll(s, plan) + Stripped(ClearNodesStore(s, plan), n, users)
    decreases |plan|
  {
    var more := plan + [(n, users)];
    if plan != [] {
      assert more[0] == plan[0] && more[1..] == plan[1..] + [(n, users)];
      PlanMore(ClearNode(s, plan[0].0, plan[0].1), plan[1..], n, users);
    } else {
      assert more[0] == (n, users) && more[1..] == [];
    }
  }

  /** The store after the nodes of a plan were cleared, and the users who lost something. */
  ghost predicate Cleared(s: Store, plan: seq<(Node, seq<User>)>, after: Store, affected: set<User>) {
    ScansFit(s, plan) && after == ClearNodesStore(s, plan) && affected == StrippedAll(s, plan)
  }

  lemma ClearedMore(s: Store, plan: seq<(Node, seq<User>)>, after: Store, affected: set<User>, n: Node,
                    users: seq<User>)
    requires Cleared(s, plan, after, affected) && Enumerates(users, NodeUsers(after, n))
    ensures Cleared(s, plan + [(n, users)], ClearNode(after, n, users), affected + Stripped(after, n, users))
  {
    PlanMore(s, plan, n, users);
  }

  lemma PlanCovers(nodes: seq<Node>, order: seq<Node>, plan: seq<(Node, seq<User>)>)
    requires Enumerates(order, AsSet(nodes)) && |plan| == |order|
    requires forall k :: 0 <= k < |plan| ==> plan[k].0 == order[k]
    ensures forall n :: n in nodes <==> exists i :: 0 <= i < |plan| && plan[i].0 == n
    ensures OnceEach(plan) && forall n :: n in nodes <==> InPlan(plan, n)
  {
    assert forall i, j :: 0 <= i < j < |plan| ==> plan[i].0 == order[i] < order[j] == plan[j].0;
    forall n ensures n in nodes <==> exists i :: 0 <= i < |plan| && plan[i].0 == n {
      assert n in nodes <==> n in AsSet(order);
      if n in order {
        var k :| 0 <= k < |order| && order[k] == n;
        assert plan[k].0 == n;
      }
    }
  }

  /** Deletes the fields one by one and counts those that were there. */
  method DeleteFields(hashes: map<User, Key<map<Field, int>>>, u: User, members: set<Field>)
    returns (devices: map<User, Key<map<Field, int>>>, removed: nat)
    ensures devices == HashRemove(hashes, u, members)
    ensures removed == Present(hashes, u, members)
  {
    devices, removed := hashes, 0;
    var left := members;
    while left != {}
      invariant HashRemove(devices, u, left) == HashRemove(hashes, u, members)
      invariant removed + Present(devices, u, left) == Present(hashes, u, members)
      decreases left
    {
      var f := AnyOf(left);
      DeleteFirst(devices, u, left, f);
      if u in devices && f in devices[u].value {
        removed := removed + 1;
      }
      devices := HashRemove(devices, u, {f});
      left := left - {f};
    }
    HashRemoveNone(devices, u);
  }

  /** How many of the fields are there. */
  ghost function Present(hashes: map<User, Key<map<Field, int>>>, u: User, members: set<Field>): nat {
    if u in hashes then |members * hashes[u].value.Keys| else 0
  }

  lemma DeleteFirst(hashes: map<User, Key<map<Field, int>>>, u: User, left: set<Field>, f: Field)
    requires f in left
    ensures var devices := HashRemove(hashes, u, {f});
      && HashRemove(devices, u, left - {f}) == HashRemove(hashes, u, left)
      && Present(hashes, u, left) ==
         Present(devices, u, left - {f}) + if u in hashes && f in hashes[u].value then 1 else 0
  {
    HashRemoveTwice(hashes, u, {f}, left - {f});
    assert {f} + (left - {f}) == left;
    if u in hashes {
      var keys := hashes[u].value.Keys;
      assert (hashes[u].value - {f}).Keys == keys - {f};
      assert (left - {f}) * (keys - {f}) == left * keys - {f};
      if Emptied(keys, {f}) {
        assert keys == {f};
        assert left * keys == {f};
      }
    }
  }

  lemma BookNobody(l: Ledger, s: Store, delay: nat)
    ensures Booked(l, s, Batch([], [], []), delay) == l
  {
    QueueNobody(l, s, delay);
    WriteNobody(l, s, delay);
  }

  lemma QueueNobody(l: Ledger, s: Store, delay: nat)
    ensures var m := Booked(l, s, Batch([], [], []), delay); m.throttle == l.throttle && m.pending == l.pending
  {
    NothingToWrite(s);
    StampNone(l.throttle, s.clock + delay);
    StampNone(l.pending, s.clock + delay);
  }

  lemma WriteNobody(l: Ledger, s: Store, delay: nat)
    ensures var m := Booked(l, s, Batch([], [], []), delay);
      m.expiry == l.expiry && m.counts == l.counts && m.log == l.log
  {
    NothingToWrite(s);
    assert (l.expiry - {}) + map[] == l.expiry && l.counts + map[] == l.counts && l.log + [] == l.log;
  }

  lemma NothingToWrite(s: Store)
    ensures AsSet<User>([]) == {} && Expiries(s, []) == map[] && Counts(s, []) == map[] && Rows(s, []) == []
  {
    assert forall u: User :: u !in Expiries(s, []) && u !in Counts(s, []);
  }

  lemma NotifyNobody(y: System, delay: nat)
    ensures Notify(y, Batch([], [], []), delay) == y
  {
    BookNobody(y.ledger, y.store, delay);
  }

  ghost function Sets(snapshot: map<User, seq<IP>>): map<User, set<IP>> {
    map u | u in snapshot :: AsSet(snapshot[u])
  }

  function NormalizedAll(devices: map<User, seq<string>>, parse: string -> Option<IP>): map<User, seq<IP>> {
    map u | u in devices :: Normalized(devices[u], parse)
  }

  /** The event of a node's report. */
  ghost function Reporting(n: Node, snapshot: map<User, seq<IP>>, replaceAll: bool, b: Batch): Event {
    ReplaceNode(n, Sets(snapshot), replaceAll, b)
  }

  predicate ValidIds(ids: seq<int>) {
    |ids| <= MAXIMUM_INDEX_MEMBERS && forall i :: 0 <= i < |ids| ==> ids[i] >= 1
  }

  lemma StampMore(queue: map<User, int>, users: set<User>, u: User, due: int)
    ensures Stamp(queue, users + {u}, due) == Stamp(queue, users, due)[u := due]
  {
    assert forall v :: v in Stamp(queue, users + {u}, due) <==> v in Stamp(queue, users, due)[u := due];
  }

  lemma StampNone(queue: map<User, int>, due: int)
    ensures Stamp(queue, {}, due) == queue
  {
    assert forall v :: v in Stamp(queue, {}, due) <==> v in queue;
  }

  /** SET NX for every user: those who get the reservation are written at once. */
  method Reserve(order: seq<User>, throttle: map<User, int>, due: int)
    returns (immediate: seq<User>, deferred: seq<User>, reserved: map<User, int>)
    requires Distinct(order)
    ensures Distinct(immediate)
    ensures forall u :: u in immediate <==> u in order && u !in throttle
    ensures forall u :: u in deferred <==> u in order && u in throttle
    ensures reserved == Stamp(throttle, AsSet(immediate), due)
  {
    immediate, deferred, reserved := [], [], throttle;
    StampNone(throttle, due);
    for i := 0 to |order|
      invariant Distinct(immediate)
      invariant forall u :: u in immediate <==> u in order[..i] && u !in throttle
      invariant forall u :: u in deferred <==> u in order[..i] && u in throttle
      invariant reserved == Stamp(throttle, AsSet(immediate), due)
    {
      var u := order[i];
      assert u !in order[..i];
      if u in reserved {
        deferred := deferred + [u];
      } else {
        StampMore(throttle, AsSet(immediate), u, due);
        assert AsSet(immediate + [u]) == AsSet(immediate) + {u};
        reserved := reserved[u := due];
        immediate := immediate + [u];
      }
    }
    assert order[..|order|] == order;
  }

  /** Reserves who is free and puts the others on the pending queue. */
  method Split(l: Ledger, order: seq<User>, due: int)
    returns (b: Batch, throttle: map<User, int>, pending: map<User, int>)
    requires Distinct(order)
    ensures b.order == order && Splits(l, b)
    ensures throttle == Stamp(l.throttle, AsSet(b.now), due) && pending == Stamp(l.pending, AsSet(b.deferred), due)
  {
    var now, deferred;
    now, deferred, throttle := Reserve(order, l.throttle, due);
    b := Batch(order, now, deferred);
    pending := ScheduleAll(l.pending, deferred, due);
  }

  method ScheduleAll(queue: map<User, int>, users: seq<User>, due: int) returns (r: map<User, int>)
    ensures r == Stamp(queue, AsSet(users), due)
  {
    r := queue;
    StampNone(queue, due);
    for i := 0 to |users|
      invariant r == Stamp(queue, AsSet(users[..i]), due)
    {
      assert AsSet(users[..i + 1]) == AsSet(users[..i]) + {users[i]};
      StampMore(queue, AsSet(users[..i]), users[i], due);
      r := r[users[i] := due];
    }
    assert users[..|users|] == users;
  }

  /** The rows go to the database; users still online get an expiry entry, the others lose theirs. */
  method WriteBehind(l: Ledger, throttle: map<User, int>, pending: map<User, int>, now: seq<User>, rows: seq<Summary>,
                     expiries: map<User, int>, ghost s: Store, ghost b: Batch, ghost delay: nat)
    returns (r: Ledger)
    requires throttle == Stamp(l.throttle, AsSet(now), s.clock + delay)
    requires pending == Stamp(l.pending, AsSet(b.deferred), s.clock + delay)
    requires now == b.now && rows == Rows(s, now) && expiries == Expiries(s, now)
    ensures r == Booked(l, s, b, delay)
  {
    var expiry := WithExpiries(l.expiry, now, expiries);
    RowsCarryCounts(s, now);
    var counts := WriteRows(l.counts, rows, Counts(s, now));
    r := Ledger(throttle, pending, expiry, counts, l.log + rows);
    BookedIs(l, s, b, delay, r);
  }

  lemma BookedIs(l: Ledger, s: Store, b: Batch, delay: nat, m: Ledger)
    requires m.throttle == Stamp(l.throttle, AsSet(b.now), s.clock + delay)
    requires m.pending == Stamp(l.pending, AsSet(b.deferred), s.clock + delay)
    requires m.expiry == (l.expiry - AsSet(b.now)) + Expiries(s, b.now)
    requires m.counts == l.counts + Counts(s, b.now) && m.log == l.log + Rows(s, b.now)
    ensures m == Booked(l, s, b, delay)
  {
  }

  /** ZADD for the users still online, ZREM for the others. */
  method WithExpiries(queue: map<User, int>, now: seq<User>, expiries: map<User, int>) returns (r: map<User, int>)
    requires forall u :: u in expiries ==> u in now
    ensures r == (queue - AsSet(now)) + expiries
  {
    r := queue + expiries;
    r := r - (set u | u in now && u !in expiries);
    ghost var want := (queue - AsSet(now)) + expiries;
    assert forall u :: u in r <==> u in want;
  }

  method WriteRows(counts: map<User, nat>, rows: seq<Summary>, ghost want: map<User, nat>) returns (r: map<User, nat>)
    requires forall i :: 0 <= i < |rows| ==> rows[i].user in want && want[rows[i].user] == rows[i].count
    requires forall u :: u in want ==> exists i :: 0 <= i < |rows| && rows[i].user == u
    ensures r == counts + want
  {
    r := counts;
    for n := 0 to |rows|
      invariant counts.Keys <= r.Keys <= counts.Keys + want.Keys
      invariant forall i :: 0 <= i < n ==> rows[i].user in r
      invariant forall u :: u in r ==> (u in want && r[u] == want[u]) || (u in counts && r[u] == counts[u])
      invariant forall i :: 0 <= i < n ==> r[rows[i].user] == want[rows[i].user]
    {
      r := r[rows[n].user := rows[n].count];
    }
    forall u | u in want ensures u in r && r[u] == want[u] {
      var i :| 0 <= i < |rows| && rows[i].user == u;
    }
    assert forall u :: u in r <==> u in counts + want;
    assert forall u :: u in r ==> r[u] == (counts + want)[u];
  }

  lemma RowsCarryCounts(s: Store, now: seq<User>)
    ensures var rows, want := Rows(s, now), Counts(s, now);
      && (forall i :: 0 <= i < |rows| ==> rows[i].user in want && want[rows[i].user] == rows[i].count)
      && (forall u :: u in want ==> exists i :: 0 <= i < |rows| && rows[i].user == u)
  {
    var rows, want := Rows(s, now), Counts(s, now);
    forall u | u in want ensures exists i :: 0 <= i < |rows| && rows[i].user == u {
      var i :| 0 <= i < |now| && now[i] == u;
      assert rows[i].user == u;
    }
  }

  lemma RowsMore(s: Store, users: seq<User>, u: User)
    ensures Rows(s, users + [u]) == Rows(s, users) + [Summary(u, |LiveIPs(s, u)|, s.clock)]
  {
  }

  lemma ExpiriesMore(s: Store, users: seq<User>, u: User)
    ensures Expiries(s, users + [u]) ==
      if LiveFields(s, u) == map[] then Expiries(s, users) else Expiries(s, users)[u := NextLapse(s, u)]
  {
  }

  lemma {:induction false} SortedSize(values: seq<string>)
    requires Sorted(values)
    ensures |AsSet(values)| == |values|
  {
    if values != [] {
      var n := |values| - 1;
      SortedSize(values[..n]);
      forall i | 0 <= i < n ensures values[i] != values[n] {
        BelowIrreflexive(values[n]);
      }
      assert AsSet(values) == AsSet(values[..n]) + {values[n]};
    }
  }

  ghost predicate ShowsTheSame(s: Store, t: Store) {
    && t.clock == s.clock
    && (forall v :: LiveFields(t, v) == LiveFields(s, v) && LiveIPs(t, v) == LiveIPs(s, v))
    && (forall v :: NextLapse(t, v) == NextLapse(s, v))
  }

  /** Listing users one after the other shows each of them what listing it first would. */
  lemma CleanupShowsTheSame(s: Store, t: Store, seen: Seen, u: User)
    requires Agrees(t, seen) && ShowsTheSame(s, t)
    ensures Agrees(Cleanup(t, u), seen) && ShowsTheSame(s, Cleanup(t, u))
  {
    var c := Cleanup(t, u);
    CleanupAgrees(t, seen, u);
    forall v
      ensures LiveFields(c, v) == LiveFields(s, v) && LiveIPs(c, v) == LiveIPs(s, v)
      ensures NextLapse(c, v) == NextLapse(s, v)
    {
      assert LiveFields(c, v) == LiveFields(t, v);
      assert Times(c, v) == Times(t, v);
    }
  }

  method ScanHash(hash: map<Field, int>, clock: nat)
    returns (ips: set<IP>, stale: set<Field>, active: set<Node>, nodes: set<Node>, next: int)
    ensures nodes == Nodes(hash.Keys) && stale == hash.Keys - LiveKeys(hash, hash.Keys, clock)
    ensures active == Nodes(LiveKeys(hash, hash.Keys, clock)) && ips == IPs(LiveKeys(hash, hash.Keys, clock))
    ensures FirstLapse(hash, LiveKeys(hash, hash.Keys, clock), next)
  {
    ips, stale, active, nodes, next := {}, {}, {}, {}, 0;
    var left := hash.Keys;
    ghost var done: set<Field> := {};
    while left != {}
      invariant done + left == hash.Keys && done !! left
      invariant nodes == Nodes(done) && stale == done - LiveKeys(hash, done, clock)
      invariant active == Nodes(LiveKeys(hash, done, clock)) && ips == IPs(LiveKeys(hash, done, clock))
      invariant FirstLapse(hash, LiveKeys(hash, done, clock), next)
      decreases left
    {
      var f := AnyOf(left);
      nodes := nodes + {f.node};
      ghost var live := LiveKeys(hash, done, clock);
      if Live(hash[f], clock) {
        active, ips := active + {f.node}, ips + {f.ip};
        FirstLapseMore(hash, live, next, f, clock);
        if next == 0 || LapseAt(hash[f]) < next {
          next := LapseAt(hash[f]);
        }
        assert LiveKeys(hash, done + {f}, clock) == live + {f};
      } else {
        stale := stale + {f};
        assert LiveKeys(hash, done + {f}, clock) == live;
      }
      left, done := left - {f}, done + {f};
    }
    assert done == hash.Keys;
  }
}
