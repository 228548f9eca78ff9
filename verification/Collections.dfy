/** Optional values, results and bytes, and small facts about collections that several components share. */
module Collections {

  datatype Option<+T> = None | Some(value: T)

  datatype Result<+T, +E> = Ok(value: T) | Err(error: E)

  type Byte = b: int | 0 <= b < 256

  type Bytes = seq<Byte>

  lemma NonEmpty<T>(s: set<T>)
    requires s != {}
    ensures exists x :: x in s
  {
    assert (forall x :: x !in s) ==> s == {};
  }

  ghost function Pick<T>(s: set<T>): (x: T)
    requires s != {}
    ensures x in s
  {
    NonEmpty(s);
    var x :| x in s;
    x
  }

  /** Iterating over a map or a set yields its members in no particular order. */
  method AnyOf<T>(s: set<T>) returns (x: T)
    requires s != {}
    ensures x in s
  {
    NonEmpty(s);
    x :| x in s;
  }

  /** Putting `x` in front of position `n` adds it and nothing else. */
  lemma Spliced<T>(s: seq<T>, n: nat, x: T, r: seq<T>)
    requires n <= |s| && r == s[..n] + [x] + s[n..]
    ensures forall y :: y in r <==> y == x || y in s
  {
    assert s == s[..n] + s[n..];
    assert forall y :: y in s <==> y in s[..n] || y in s[n..];
  }

  function AsSet<T>(s: seq<T>): set<T> {
    set x | x in s
  }

  lemma SubsetSize<T>(a: set<T>, b: set<T>)
    requires a <= b
    ensures |a| <= |b|
  {
    assert b == a + (b - a);
  }
}
