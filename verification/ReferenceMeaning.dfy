/** What the list of references in a text says, told by where they stand. */
module ReferenceMeaning {
  import opened ReferenceScanner

  /** A reference with this identifier, in lower case, starts at `i`. */
  predicate Names(body: string, i: int, id: string) {
    Occurs(body, i) && WellFormed(body, i) && Lower(body[i + SCHEME_LENGTH..i + SPAN]) == id
  }

  /** The identifier is named at a place, and the other one at no place up to there. */
  ghost predicate NamedBefore(body: string, a: string, b: string) {
    exists i :: Names(body, i, a) && forall j :: j <= i ==> !Names(body, j, b)
  }

  lemma IdsNext(body: string, n: nat, id: string)
    requires n < |body|
    ensures id in Ids(body, n + 1) <==> id in Ids(body, n) || Names(body, n, id)
  {
  }

  lemma NamedMore(body: string, n: nat, id: string)
    ensures NamedUpTo(body, n + 1, id) <==> NamedUpTo(body, n, id) || Names(body, n, id)
  {
    if i :| 0 <= i < n + 1 && Names(body, i, id) {
      assert i < n || i == n;
    }
    if Names(body, n, id) {
      assert 0 <= n < n + 1 && Names(body, n, id);
    }
  }

  ghost predicate NamedUpTo(body: string, n: nat, id: string) {
    exists i :: 0 <= i < n && Names(body, i, id)
  }

  lemma {:induction false} ListedSoFar(body: string, n: nat, id: string)
    requires n <= |body|
    ensures id in Ids(body, n) <==> NamedUpTo(body, n, id)
  {
    if n > 0 {
      ListedSoFar(body, n - 1, id);
      IdsNext(body, n - 1, id);
      NamedMore(body, n - 1, id);
    }
  }

  ghost predicate InOrder(body: string, r: seq<string>) {
    forall a, b :: 0 <= a < b < |r| ==> NamedBefore(body, r[a], r[b])
  }

  lemma {:induction false} OrderSoFar(body: string, n: nat)
    requires n <= |body|
    ensures InOrder(body, Distinct(Ids(body, n)))
  {
    if n > 0 {
      OrderSoFar(body, n - 1);
      OrderMore(body, n - 1);
    }
  }

  lemma OrderMore(body: string, n: nat)
    requires n < |body| && InOrder(body, Distinct(Ids(body, n)))
    ensures InOrder(body, Distinct(Ids(body, n + 1)))
  {
    var before := Distinct(Ids(body, n));
    if Ids(body, n + 1) != Ids(body, n) {
      var id := IdAt(body, n);
      DistinctStep(Ids(body, n), id);
      if id !in before {
        NewIsLast(body, n, before, id);
      }
    }
  }

  lemma NewIsLast(body: string, n: nat, before: seq<string>, id: string)
    requires n <= |body| && InOrder(body, before) && forall a :: a in before ==> a in Ids(body, n)
    requires id !in Ids(body, n) && Names(body, n, id)
    ensures InOrder(body, before + [id])
  {
    ListedSoFar(body, n, id);
    var r := before + [id];
    forall a, b | 0 <= a < b < |r|
      ensures NamedBefore(body, r[a], r[b])
    {
      if b == |before| {
        ListedSoFar(body, n, before[a]);
        var i :| 0 <= i < n && Names(body, i, before[a]);
        assert forall j :: j <= i ==> !Names(body, j, id);
      }
    }
  }

  /** The list has exactly the identifiers of the text's references, each once, in the order of their first use. */
  lemma ReferencesMean(body: string)
    ensures forall id :: id in References(body) <==> exists i :: Names(body, i, id)
    ensures var r := References(body); forall a, b :: 0 <= a < b < |r| ==> r[a] != r[b]
    ensures var r := References(body); forall a, b :: 0 <= a < b < |r| ==> NamedBefore(body, r[a], r[b])
  {
    var r := Distinct(Ids(body, |body|));
    forall id
      ensures id in r <==> exists i :: Names(body, i, id)
    {
      ListedSoFar(body, |body|, id);
      NamedAnywhere(body, id);
    }
    OrderSoFar(body, |body|);
  }

  lemma NamedAnywhere(body: string, id: string)
    ensures NamedUpTo(body, |body|, id) <==> exists i :: Names(body, i, id)
  {
    if i :| Names(body, i, id) {
      assert 0 <= i < |body|;
    }
  }
}
