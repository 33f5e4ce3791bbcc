/** Small facts about finite sets and the orders in which a collection may be walked. */
module Collections {

  ghost predicate Distinct<T(!new)>(s: seq<T>) {
    forall i, j | 0 <= i < j < |s| :: s[i] != s[j]
  }

  /** An order in which the keys of a map may be walked. */
  ghost predicate Enumerates<V>(order: seq<string>, m: map<string, V>) {
    Distinct(order) && forall k :: k in order <==> k in m
  }

  lemma HeadIsIn<T(!new)>(s: seq<T>)
    requires s != []
    ensures exists x :: x in s
  {
    assert s[0] in s;
  }

  lemma HasElement(s: set<int>)
    requires s != {}
    ensures exists u :: u in s
  {
    assert (forall u :: u !in s) ==> s == {};
  }

  lemma SubsetSize<T>(a: set<T>, b: set<T>)
    requires a <= b
    ensures |a| <= |b|
    ensures |a| == |b| ==> a == b
  {
    assert |b - a| == |b| - |a|;
  }

  lemma {:induction false} UpperBound(s: set<int>) returns (n: int)
    ensures forall x | x in s :: x < n
    decreases s
  {
    if s == {} {
      n := 0;
    } else {
      HasElement(s);
      var x :| x in s;
      n := UpperBound(s - {x});
      assert forall y | y in s :: y == x || y in s - {x};
      if n <= x {
        n := x + 1;
      }
    }
  }

  /** A finite set of strings, written out in some order. */
  lemma {:induction false} Listing(keys: set<string>) returns (order: seq<string>)
    ensures Distinct(order) && forall k :: k in order <==> k in keys
    decreases keys
  {
    if keys == {} {
      order := [];
    } else {
      var k :| k in keys;
      var rest := Listing(keys - {k});
      order := [k] + rest;
    }
  }
}
