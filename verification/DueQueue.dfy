/** Choosing which users to summarise next: the earliest members of two sorted sets are merged by
    user, ordered, and cut to a limit. */
module DueQueue {
  import opened Collections

  type User = int

  /** A sorted set of Redis: every member has one score, here milliseconds. */
  type Queue = map<User, int>

  datatype Entry = Entry(user: User, score: int)

  datatype Due = Due(user: User, score: int, pending: bool, expiry: bool)

  predicate IsDue(q: Queue, dueAt: int, u: User) {
    u in q && q[u] <= dueAt
  }

  ghost predicate DueMembers(q: Queue, dueAt: int, es: seq<Entry>) {
    forall i :: 0 <= i < |es| ==> IsDue(q, dueAt, es[i].user) && es[i].score == q[es[i].user]
  }

  /** What ZRANGEBYSCORE with a count returns: the first `limit` due members in score order. */
  ghost predicate IsRange(q: Queue, dueAt: int, limit: nat, es: seq<Entry>) {
    && |es| <= limit
    && DueMembers(q, dueAt, es)
    && (forall i, j :: 0 <= i < j < |es| ==> es[i].user != es[j].user && es[i].score <= es[j].score)
    && (forall u :: IsDue(q, dueAt, u) && (forall i :: 0 <= i < |es| ==> es[i].user != u) ==>
      |es| == limit && forall i :: 0 <= i < |es| ==> es[i].score <= q[u])
  }

  /** The earliest due score of a user over both complete queues is at most `score`. */
  predicate DueBy(p: Queue, e: Queue, dueAt: int, u: User, score: int) {
    (IsDue(p, dueAt, u) && p[u] <= score) || (IsDue(e, dueAt, u) && e[u] <= score)
  }

  predicate Precedes(a: Due, b: Due) {
    a.score < b.score || (a.score == b.score && a.user < b.user)
  }

  predicate Ordered(ds: seq<Due>) {
    forall i, j :: 0 <= i < j < |ds| ==> Precedes(ds[i], ds[j])
  }

  predicate Lists(ds: seq<Due>, u: User) {
    exists i :: 0 <= i < |ds| && ds[i].user == u
  }

  /** A due summary is marked with the queues it was found in. */
  predicate Marked(p: Queue, e: Queue, dueAt: int, d: Due) {
    && (d.pending ==> IsDue(p, dueAt, d.user)) && (d.expiry ==> IsDue(e, dueAt, d.user))
    && DueBy(p, e, dueAt, d.user, d.score)
    && (d.pending || d.expiry)
  }

  /** The selection: marked, in order, within the limit, complete unless the limit cuts it, and
      fair: nobody left out was due before somebody taken. */
  ghost predicate Selects(p: Queue, e: Queue, dueAt: int, limit: nat, due: seq<Due>) {
    && |due| <= limit && Ordered(due)
    && (forall i :: 0 <= i < |due| ==> Marked(p, e, dueAt, due[i]))
    && (forall i, j :: 0 <= i < j < |due| ==> due[i].user != due[j].user)
    && (forall u :: (IsDue(p, dueAt, u) || IsDue(e, dueAt, u)) && !Lists(due, u) ==> |due| == limit)
    && (forall i, u, score :: 0 <= i < |due| && !Lists(due, u) && DueBy(p, e, dueAt, u, score) ==>
      DueBy(p, e, dueAt, due[i].user, score))
  }

  /** The entries merged so far, by user. */
  ghost predicate Merged(found: map<User, Due>, ps: seq<Entry>, es: seq<Entry>) {
    && (forall i :: 0 <= i < |ps| ==>
      ps[i].user in found && found[ps[i].user].pending && found[ps[i].user].score <= ps[i].score)
    && (forall i :: 0 <= i < |es| ==>
      es[i].user in found && found[es[i].user].expiry && found[es[i].user].score <= es[i].score)
  }

  predicate Among(es: seq<Entry>, u: User) {
    exists x :: x in es && x.user == u
  }

  /** The marks of a summary say which of the two ranges have its user, its score is the smaller one found there. */
  ghost predicate FoundIn(d: Due, ps: seq<Entry>, es: seq<Entry>) {
    && (d.pending <==> Among(ps, d.user)) && (d.expiry <==> Among(es, d.user))
    && (Entry(d.user, d.score) in ps || Entry(d.user, d.score) in es)
    && (forall x :: (x in ps || x in es) && x.user == d.user ==> d.score <= x.score)
  }

  ghost predicate FoundExactly(found: map<User, Due>, ps: seq<Entry>, es: seq<Entry>) {
    forall u :: u in found ==> found[u].user == u && FoundIn(found[u], ps, es)
  }

  ghost predicate MarkedAll(found: map<User, Due>, p: Queue, e: Queue, dueAt: int) {
    forall u :: u in found ==> found[u].user == u && Marked(p, e, dueAt, found[u])
  }

  function Put(found: map<User, Due>, entry: Entry, fromPending: bool): map<User, Due> {
    var d := if entry.user in found then found[entry.user] else Due(entry.user, entry.score, false, false);
    found[entry.user := d.(score := if entry.score < d.score then entry.score else d.score,
                        pending := d.pending || fromPending, expiry := d.expiry || !fromPending)]
  }

  lemma PutMerges(found: map<User, Due>, ps: seq<Entry>, es: seq<Entry>, entry: Entry, fromPending: bool)
    requires Merged(found, ps, es)
    ensures var ps', es' := if fromPending then ps + [entry] else ps, if fromPending then es else es + [entry];
      Merged(Put(found, entry, fromPending), ps', es')
  {
    var after := Put(found, entry, fromPending);
    assert forall u :: u in found ==> u in after && after[u].score <= found[u].score;
    assert forall u :: u in found ==> (found[u].pending ==> after[u].pending) && (found[u].expiry ==> after[u].expiry);
  }

  lemma PutFinds(found: map<User, Due>, ps: seq<Entry>, es: seq<Entry>, entry: Entry, fromPending: bool)
    requires Merged(found, ps, es) && FoundExactly(found, ps, es)
    ensures var ps', es' := if fromPending then ps + [entry] else ps, if fromPending then es else es + [entry];
      FoundExactly(Put(found, entry, fromPending), ps', es')
  {
    var ps', es' := if fromPending then ps + [entry] else ps, if fromPending then es else es + [entry];
    var after := Put(found, entry, fromPending);
    assert forall x :: x in ps' <==> x in ps || (fromPending && x == entry);
    assert forall x :: x in es' <==> x in es || (!fromPending && x == entry);
    assert forall u :: Among(ps', u) <==> Among(ps, u) || (fromPending && u == entry.user);
    assert forall u :: Among(es', u) <==> Among(es, u) || (!fromPending && u == entry.user);
    forall u | u in after
      ensures after[u].user == u && FoundIn(after[u], ps', es')
    {
      assert u in found ==> FoundIn(found[u], ps, es);
      assert u !in found ==> !Among(ps, u) && !Among(es, u) && u == entry.user;
    }
  }

  lemma PutMarks(found: map<User, Due>, p: Queue, e: Queue, dueAt: int, entry: Entry, fromPending: bool)
    requires MarkedAll(found, p, e, dueAt)
    requires var q := if fromPending then p else e; IsDue(q, dueAt, entry.user) && entry.score == q[entry.user]
    ensures MarkedAll(Put(found, entry, fromPending), p, e, dueAt)
  {
  }

  /** Insertion into an ordered list, by score and then by user. */
  method Insert(ds: seq<Due>, d: Due) returns (r: seq<Due>)
    requires Ordered(ds) && forall i :: 0 <= i < |ds| ==> ds[i].user != d.user
    ensures Ordered(r) && |r| == |ds| + 1
    ensures forall x :: x in r <==> x == d || x in ds
  {
    var k := 0;
    while k < |ds| && Precedes(ds[k], d)
      invariant 0 <= k <= |ds|
      invariant forall i :: 0 <= i < k ==> Precedes(ds[i], d)
    {
      k := k + 1;
    }
    r := ds[..k] + [d] + ds[k..];
    assert forall i :: k <= i < |ds| ==> Precedes(d, ds[i]);
    assert forall i :: 0 <= i < |r| ==> r[i] == if i < k then ds[i] else if i == k then d else ds[i - 1];
    Spliced(ds, k, d, r);
  }

  ghost predicate Collected(found: map<User, Due>, all: seq<Due>) {
    forall d :: d in all <==> d.user in found && d == found[d.user]
  }

  method Sort(found: map<User, Due>) returns (all: seq<Due>)
    requires forall u :: u in found ==> found[u].user == u
    ensures Ordered(all) && Collected(found, all)
  {
    all := [];
    var left := found.Keys;
    while left != {}
      invariant left <= found.Keys
      invariant Ordered(all) && Collected(map u | u in found && u !in left :: found[u], all)
      decreases left
    {
      var u := AnyOf(left);
      all := Insert(all, found[u]);
      left := left - {u};
    }
    assert (map u | u in found && u !in left :: found[u]) == found;
  }

  /** ZRANGEBYSCORE up to `dueAt`, cut to `limit` members. */
  method RangeByScore(q: Queue, dueAt: int, limit: nat) returns (es: seq<Entry>)
    ensures IsRange(q, dueAt, limit, es)
  {
    var found := map u | u in q && q[u] <= dueAt :: Due(u, q[u], false, false);
    var all := Sort(found);
    var n := if |all| > limit then limit else |all|;
    es := seq(n, i requires 0 <= i < n => Entry(all[i].user, all[i].score));
    forall i | 0 <= i < |all| ensures IsDue(q, dueAt, all[i].user) && all[i].score == q[all[i].user] {
      assert all[i] in all;
    }
    forall u | IsDue(q, dueAt, u) ensures Lists(all, u) {
      assert found[u] in all;
    }
    PrefixIsRange(q, dueAt, limit, all, es);
  }

  /** The first `limit` of all due members, in order, are a range. */
  lemma PrefixIsRange(q: Queue, dueAt: int, limit: nat, all: seq<Due>, es: seq<Entry>)
    requires Ordered(all) && |es| == if |all| > limit then limit else |all|
    requires forall i :: 0 <= i < |es| ==> es[i] == Entry(all[i].user, all[i].score)
    requires forall i :: 0 <= i < |all| ==> IsDue(q, dueAt, all[i].user) && all[i].score == q[all[i].user]
    requires forall u :: IsDue(q, dueAt, u) ==> Lists(all, u)
    ensures IsRange(q, dueAt, limit, es)
  {
    forall i, j | 0 <= i < j < |es| ensures es[i].user != es[j].user && es[i].score <= es[j].score {
      assert Precedes(all[i], all[j]);
    }
    forall u | IsDue(q, dueAt, u) && (forall i :: 0 <= i < |es| ==> es[i].user != u)
      ensures |es| == limit && forall i :: 0 <= i < |es| ==> es[i].score <= q[u]
    {
      var k :| 0 <= k < |all| && all[k].user == u;
      assert |es| <= k;
      forall i | 0 <= i < |es| ensures es[i].score <= q[u] {
        assert Precedes(all[i], all[k]);
      }
    }
  }

  /** What the merging loops keep. */
  ghost predicate MergedSoFar(found: map<User, Due>, p: Queue, e: Queue, dueAt: int, ps: seq<Entry>, es: seq<Entry>) {
    Merged(found, ps, es) && MarkedAll(found, p, e, dueAt) && FoundExactly(found, ps, es)
  }

  lemma PutKeeps(found: map<User, Due>, p: Queue, e: Queue, dueAt: int, ps: seq<Entry>, es: seq<Entry>, entry: Entry,
                 fromPending: bool)
    requires MergedSoFar(found, p, e, dueAt, ps, es)
    requires var q := if fromPending then p else e; IsDue(q, dueAt, entry.user) && entry.score == q[entry.user]
    ensures MergedSoFar(Put(found, entry, fromPending), p, e, dueAt, if fromPending then ps + [entry] else ps,
                        if fromPending then es else es + [entry])
  {
    PutMerges(found, ps, es, entry, fromPending);
    PutFinds(found, ps, es, entry, fromPending);
    PutMarks(found, p, e, dueAt, entry, fromPending);
  }

  method Merge(ghost p: Queue, ghost e: Queue, ghost dueAt: int, ps: seq<Entry>, es: seq<Entry>)
    returns (found: map<User, Due>)
    requires DueMembers(p, dueAt, ps) && DueMembers(e, dueAt, es)
    ensures MergedSoFar(found, p, e, dueAt, ps, es)
  {
    found := map[];
    for i := 0 to |ps|
      invariant MergedSoFar(found, p, e, dueAt, ps[..i], [])
    {
      PutKeeps(found, p, e, dueAt, ps[..i], [], ps[i], true);
      assert ps[..i + 1] == ps[..i] + [ps[i]];
      found := Put(found, ps[i], true);
    }
    assert ps[..|ps|] == ps;
    for i := 0 to |es|
      invariant MergedSoFar(found, p, e, dueAt, ps, es[..i])
    {
      PutKeeps(found, p, e, dueAt, ps, es[..i], es[i], false);
      assert es[..i + 1] == es[..i] + [es[i]];
      found := Put(found, es[i], false);
    }
    assert es[..|es|] == es;
  }

  /** Merging, sorting and cutting two queue ranges selects fairly from the complete queues. */
  method ListDueSummaries(ghost p: Queue, ghost e: Queue, ghost dueAt: int, limit: nat, ps: seq<Entry>, es: seq<Entry>)
    returns (due: seq<Due>)
    requires IsRange(p, dueAt, limit, ps) && IsRange(e, dueAt, limit, es)
    ensures Selects(p, e, dueAt, limit, due)
    ensures forall i :: 0 <= i < |due| ==> FoundIn(due[i], ps, es)
  {
    var found := Merge(p, e, dueAt, ps, es);
    var all := Sort(found);
    due := if |all| > limit then all[..limit] else all;
    CutSelects(p, e, dueAt, limit, ps, es, found, all);
    forall i | 0 <= i < |due| ensures FoundIn(due[i], ps, es) {
      assert due[i] == all[i] && all[i] in all;
    }
  }

  ghost predicate Early(all: seq<Due>, u: User, score: int) {
    exists d :: d in all && d.user == u && d.score <= score
  }

  /** `limit` distinct users at or below a score fill the first `limit` places of an ordered list. */
  lemma EarlyPlaces(all: seq<Due>, users: seq<User>, score: int, i: nat)
    requires Ordered(all) && i < |all| && i < |users|
    requires forall a, b :: 0 <= a < b < |users| ==> users[a] != users[b]
    requires forall a :: 0 <= a < |users| ==> Early(all, users[a], score)
    ensures all[i].score <= score
  {
    if all[i].score > score {
      var early := set j | 0 <= j < i :: all[j].user;
      var us := set a | 0 <= a < |users| :: users[a];
      forall a | 0 <= a < |users| ensures users[a] in early {
        var d :| d in all && d.user == users[a] && d.score <= score;
        var j :| 0 <= j < |all| && all[j] == d;
      }
      assert us <= early;
      IndexBound(all, i);
      DistinctCount(users);
      SubsetSize(us, early);
      assert false;
    }
  }

  lemma {:induction false} IndexBound(all: seq<Due>, i: nat)
    requires i <= |all|
    ensures |set j | 0 <= j < i :: all[j].user| <= i
  {
    if i > 0 {
      IndexBound(all, i - 1);
      assert (set j | 0 <= j < i :: all[j].user) == (set j | 0 <= j < i - 1 :: all[j].user) + {all[i - 1].user};
    }
  }

  lemma {:induction false} DistinctCount(users: seq<User>)
    requires forall a, b :: 0 <= a < b < |users| ==> users[a] != users[b]
    ensures |set a | 0 <= a < |users| :: users[a]| == |users|
  {
    if users != [] {
      var n := |users| - 1;
      DistinctCount(users[..n]);
      assert (set a | 0 <= a < |users| :: users[a]) == (set a | 0 <= a < n :: users[..n][a]) + {users[n]};
    }
  }

  function Users(es: seq<Entry>): seq<User> {
    seq(|es|, i requires 0 <= i < |es| => es[i].user)
  }

  /** A due entry beyond the cut of its queue is no earlier than anything that was kept. */
  lemma BeyondTheCut(q: Queue, dueAt: int, limit: nat, es: seq<Entry>, found: map<User, Due>, all: seq<Due>, u: User,
                     i: nat)
    requires IsRange(q, dueAt, limit, es) && IsDue(q, dueAt, u) && forall k :: 0 <= k < |es| ==> es[k].user != u
    requires forall k :: 0 <= k < |es| ==> es[k].user in found && found[es[k].user].score <= es[k].score
    requires Ordered(all) && Collected(found, all) && i < |all| && i < limit
    requires forall v :: v in found ==> found[v].user == v
    ensures all[i].score <= q[u]
  {
    var users := Users(es);
    assert |es| == limit && forall k :: 0 <= k < |es| ==> es[k].score <= q[u];
    forall a | 0 <= a < |users| ensures Early(all, users[a], q[u]) {
      var d := found[es[a].user];
      assert d in all && d.user == users[a] && d.score <= es[a].score;
    }
    EarlyPlaces(all, users, q[u], i);
  }

  /** The seen score of a user that was cut off is its own earliest, so the cut is fair for it. */
  lemma CutIsFair(p: Queue, e: Queue, dueAt: int, limit: nat, ps: seq<Entry>, es: seq<Entry>,
                  found: map<User, Due>, all: seq<Due>, u: User, score: int, i: nat)
    requires IsRange(p, dueAt, limit, ps) && IsRange(e, dueAt, limit, es)
    requires Merged(found, ps, es) && MarkedAll(found, p, e, dueAt) && Ordered(all) && Collected(found, all)
    requires i < |all| && i < limit && DueBy(p, e, dueAt, u, score)
    requires u in found ==> exists j :: i < j < |all| && all[j].user == u
    ensures all[i].score <= score
  {
    if IsDue(p, dueAt, u) && p[u] <= score {
      QueueIsFair(p, dueAt, limit, ps, found, all, u, i);
    } else {
      QueueIsFair(e, dueAt, limit, es, found, all, u, i);
    }
  }

  lemma QueueIsFair(q: Queue, dueAt: int, limit: nat, es: seq<Entry>, found: map<User, Due>, all: seq<Due>, u: User,
                    i: nat)
    requires IsRange(q, dueAt, limit, es) && IsDue(q, dueAt, u)
    requires forall k :: 0 <= k < |es| ==> es[k].user in found && found[es[k].user].score <= es[k].score
    requires Ordered(all) && Collected(found, all) && i < |all| && i < limit
    requires forall v :: v in found ==> found[v].user == v
    requires u in found ==> exists j :: i < j < |all| && all[j].user == u
    ensures all[i].score <= q[u]
  {
    if k :| 0 <= k < |es| && es[k].user == u {
      var j :| i < j < |all| && all[j].user == u;
      assert all[j] in all;
      assert Precedes(all[i], all[j]);
    } else {
      BeyondTheCut(q, dueAt, limit, es, found, all, u, i);
    }
  }

  lemma CutSelects(p: Queue, e: Queue, dueAt: int, limit: nat, ps: seq<Entry>, es: seq<Entry>, found: map<User, Due>,
                   all: seq<Due>)
    requires IsRange(p, dueAt, limit, ps) && IsRange(e, dueAt, limit, es)
    requires Merged(found, ps, es) && MarkedAll(found, p, e, dueAt) && Ordered(all) && Collected(found, all)
    ensures Selects(p, e, dueAt, limit, if |all| > limit then all[..limit] else all)
  {
    var due := if |all| > limit then all[..limit] else all;
    forall i | 0 <= i < |all|
      ensures all[i].user in found && all[i] == found[all[i].user] && Marked(p, e, dueAt, all[i])
    {
      assert all[i] in all;
    }
    forall i, j | 0 <= i < j < |due| ensures due[i].user != due[j].user {
      assert Precedes(all[i], all[j]);
    }
    forall u | u in found && !Lists(due, u) ensures exists j :: |due| <= j < |all| && all[j].user == u {
      assert found[u] in all;
      assert forall i :: 0 <= i < |due| ==> due[i] == all[i] && due[i].user != u;
    }
    forall u | (IsDue(p, dueAt, u) || IsDue(e, dueAt, u)) && !Lists(due, u) ensures |due| == limit {
      if |all| <= limit {
        assert u !in found;
        RangeFills(found, all, limit, if IsDue(p, dueAt, u) then ps else es);
      }
    }
    forall i, u, score | 0 <= i < |due| && !Lists(due, u) && DueBy(p, e, dueAt, u, score)
      ensures DueBy(p, e, dueAt, due[i].user, score)
    {
      CutIsFair(p, e, dueAt, limit, ps, es, found, all, u, score, i);
    }
  }

  /** A range that reached the limit leaves at least `limit` users to choose from. */
  lemma RangeFills(found: map<User, Due>, all: seq<Due>, limit: nat, es: seq<Entry>)
    requires Collected(found, all) && |es| == limit
    requires forall i, j :: 0 <= i < j < |es| ==> es[i].user != es[j].user
    requires forall i :: 0 <= i < |es| ==> es[i].user in found
    requires forall v :: v in found ==> found[v].user == v
    ensures |all| >= limit
  {
    var users := Users(es);
    DistinctCount(users);
    IndexBound(all, |all|);
    var us := set a | 0 <= a < |users| :: users[a];
    var listed := set j | 0 <= j < |all| :: all[j].user;
    forall a | 0 <= a < |users| ensures users[a] in listed {
      assert found[es[a].user] in all;
      var j :| 0 <= j < |all| && all[j] == found[es[a].user];
    }
    SubsetSize(us, listed);
  }
}
