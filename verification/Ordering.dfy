/** The byte order of strings and sorting by it, and sorting of identifiers. */
module Ordering {
  import opened Collections

  /** Lexicographic order, shorter prefixes first. */
  predicate Below(a: string, b: string) {
    b != [] && (a == [] || a[0] < b[0] || (a[0] == b[0] && Below(a[1..], b[1..])))
  }

  lemma {:induction false} BelowIrreflexive(a: string)
    ensures !Below(a, a)
    decreases |a|
  {
    if a != [] {
      BelowIrreflexive(a[1..]);
    }
  }

  lemma {:induction false} BelowTransitive(a: string, b: string, c: string)
    requires Below(a, b) && Below(b, c)
    ensures Below(a, c)
    decreases |a|
  {
    if a != [] && a[0] == b[0] && b[0] == c[0] {
      BelowTransitive(a[1..], b[1..], c[1..]);
    }
  }

  lemma {:induction false} BelowTotal(a: string, b: string)
    requires a != b
    ensures Below(a, b) || Below(b, a)
    decreases |a|
  {
    if a != [] && b != [] && a[0] == b[0] {
      assert a == [a[0]] + a[1..] && b == [b[0]] + b[1..];
      BelowTotal(a[1..], b[1..]);
    }
  }

  /** Strictly increasing. */
  ghost predicate Sorted(keys: seq<string>) {
    forall i, j :: 0 <= i < j < |keys| ==> Below(keys[i], keys[j])
  }

  method SortStrings(keys: set<string>) returns (r: seq<string>)
    ensures Sorted(r) && forall k :: k in r <==> k in keys
  {
    r := [];
    var left := keys;
    while left != {}
      invariant left <= keys && Sorted(r)
      invariant forall k :: k in r <==> k in keys && k !in left
      decreases left
    {
      var k := AnyOf(left);
      r := InsertString(r, k);
      left := left - {k};
    }
  }

  method InsertString(s: seq<string>, key: string) returns (r: seq<string>)
    requires Sorted(s) && key !in s
    ensures Sorted(r) && forall k :: k in r <==> k == key || k in s
  {
    var n := 0;
    while n < |s| && Below(s[n], key)
      invariant 0 <= n <= |s|
      invariant forall i :: 0 <= i < n ==> Below(s[i], key)
    {
      n := n + 1;
    }
    r := s[..n] + [key] + s[n..];
    assert forall i :: 0 <= i < |r| ==> r[i] == if i < n then s[i] else if i == n then key else s[i - 1];
    forall i | n <= i < |s| ensures Below(key, s[i]) {
      BelowTotal(s[n], key);
      if n < i {
        BelowTransitive(key, s[n], s[i]);
      }
    }
    Spliced(s, n, key, r);
  }

  /** Strictly increasing, and exactly the members of `ids`. */
  predicate Enumerates(order: seq<int>, ids: set<int>) {
    (forall i, j :: 0 <= i < j < |order| ==> order[i] < order[j]) && (set u | u in order) == ids
  }

  method SortIds(ids: set<int>) returns (r: seq<int>)
    ensures Enumerates(r, ids)
  {
    r := [];
    var left := ids;
    while left != {}
      invariant left <= ids && Enumerates(r, ids - left)
      decreases left
    {
      var u := AnyOf(left);
      r := InsertId(r, ids - left, u);
      left := left - {u};
      assert ids - left == ids - (left + {u}) + {u};
    }
    assert ids - left == ids;
  }

  method InsertId(s: seq<int>, ghost ids: set<int>, u: int) returns (r: seq<int>)
    requires Enumerates(s, ids) && u !in ids
    ensures Enumerates(r, ids + {u})
  {
    assert u !in s by { assert forall x :: x in s ==> x in (set v | v in s); }
    var n := 0;
    while n < |s| && s[n] < u
      invariant 0 <= n <= |s|
      invariant forall i :: 0 <= i < n ==> s[i] < u
    {
      n := n + 1;
    }
    r := s[..n] + [u] + s[n..];
    assert forall i :: 0 <= i < |r| ==> r[i] == if i < n then s[i] else if i == n then u else s[i - 1];
    assert forall i :: n <= i < |s| ==> u < s[i] by {
      assert n < |s| ==> s[n] in s;
    }
    Spliced(s, n, u, r);
  }
}
