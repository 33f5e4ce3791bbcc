/** Dotted option keys turned into a tree of maps. */
module NestedOptions {
  import opened Wrappers
  import opened Collections
  import opened Strings

  datatype Tree = Leaf(value: string) | Node(children: map<string, Tree>)

  const EMPTY := Node(map[])

  /** One key of the conversion: walk down, making maps on the way, and store the value. None is the
      failing type assertion, met when a step of the way is already a value. */
  function Insert(t: Tree, path: seq<string>, value: string): Option<Tree>
    requires path != []
    decreases |path|
  {
    match t
    case Leaf(_) => None
    case Node(m) =>
      var part := path[0];
      if |path| == 1 then Some(Node(m[part := Leaf(value)]))
      else
        var sub :- Insert(if part in m then m[part] else EMPTY, path[1..], value);
        Some(Node(m[part := sub]))
  }

  /** Converting the keys of a map in a given order. */
  function Convert(flat: map<string, string>, order: seq<string>): Option<Tree>
    requires forall k | k in order :: k in flat
  {
    if order == [] then Some(EMPTY)
    else
      var t :- Convert(flat, order[..|order| - 1]);
      var key := order[|order| - 1];
      Insert(t, Split(key, '.'), flat[key])
  }

  /** ConvertFlatToNested; `order` is the order in which the map happened to be walked. */
  method ConvertFlatToNested(flat: map<string, string>) returns (r: Option<Tree>, order: seq<string>)
    ensures Enumerates(order, flat)
    ensures r == Convert(flat, order)
  {
    order := [];
    r := Some(EMPTY);
    var keys := flat.Keys;
    while keys != {}
      invariant keys <= flat.Keys
      invariant Distinct(order)
      invariant forall k :: k in order <==> k in flat && k !in keys
      invariant r == Convert(flat, order)
    {
      var key :| key in keys;
      ConvertAppend(flat, order, key);
      if r.Some? {
        r := Insert(r.value, Split(key, '.'), flat[key]);
      }
      order := order + [key];
      keys := keys - {key};
    }
  }

  lemma ConvertAppend(flat: map<string, string>, order: seq<string>, key: string)
    requires key in flat && forall k | k in order :: k in flat
    ensures var t := Convert(flat, order);
            Convert(flat, order + [key]) == if t == None then None else Insert(t.value, Split(key, '.'), flat[key])
  {
    assert (order + [key])[..|order|] == order;
  }

  // --- reading a tree ---

  function Lookup(t: Tree, path: seq<string>): Option<string> {
    match t
    case Leaf(v) => if path == [] then Some(v) else None
    case Node(m) => if path != [] && path[0] in m then Lookup(m[path[0]], path[1..]) else None
  }

  /** No map in the tree is empty, but for the root. */
  ghost predicate Tidy(t: Tree) {
    t.Node? ==> forall k | k in t.children :: t.children[k] != EMPTY && Tidy(t.children[k])
  }

  /** No value stands on the way to `path`. */
  ghost predicate Clear(t: Tree, path: seq<string>) {
    forall n | 0 <= n < |path| :: Lookup(t, path[..n]) == None
  }

  lemma LookupStep(t: Tree, path: seq<string>, n: nat)
    requires t.Node? && 0 < n <= |path| && path[0] in t.children
    ensures Lookup(t, path[..n]) == Lookup(t.children[path[0]], path[1..][..n - 1])
  {
    assert path[..n][0] == path[0] && path[..n][1..] == path[1..][..n - 1];
  }

  lemma ClearBelow(t: Tree, path: seq<string>)
    requires t.Node? && |path| > 1 && path[0] in t.children && Clear(t, path)
    ensures Clear(t.children[path[0]], path[1..])
  {
    forall n | 0 <= n < |path[1..]|
      ensures Lookup(t.children[path[0]], path[1..][..n]) == None
    {
      LookupStep(t, path, n + 1);
    }
  }

  lemma EmptyIsClear(path: seq<string>)
    ensures Clear(EMPTY, path)
  {
  }

  /** Insertion succeeds when the way is clear, and then changes exactly what is at or below the
      inserted path. */
  lemma {:induction false} InsertSpec(t: Tree, path: seq<string>, value: string)
    requires path != [] && t.Node? && Clear(t, path)
    ensures Insert(t, path, value).Some? && Insert(t, path, value).value.Node?
    ensures var t' := Insert(t, path, value).value;
            forall q :: Lookup(t', q) == if q == path then Some(value) else if path <= q then None else Lookup(t, q)
    decreases |path|
  {
    var part, m := path[0], t.children;
    if |path| == 1 {
      var t' := Insert(t, path, value).value;
      forall q
        ensures Lookup(t', q) == if q == path then Some(value) else if path <= q then None else Lookup(t, q)
      {
        if q != [] && q[0] == part {
          assert path == [part] && q == [q[0]] + q[1..];
        }
      }
    } else {
      var sub := if part in m then m[part] else EMPTY;
      if part in m {
        assert Lookup(t, path[..1]) == None;
        LookupStep(t, path, 1);
        assert path[1..][..0] == [];
        assert sub.Node?;
        ClearBelow(t, path);
      } else {
        EmptyIsClear(path[1..]);
      }
      InsertSpec(sub, path[1..], value);
      var sub' := Insert(sub, path[1..], value).value;
      var t' := Node(m[part := sub']);
      forall q
        ensures Lookup(t', q) == if q == path then Some(value) else if path <= q then None else Lookup(t, q)
      {
        if q != [] && q[0] == part {
          assert path == [part] + path[1..] && q == [part] + q[1..];
          assert path <= q <==> path[1..] <= q[1..];
        }
      }
    }
  }

  lemma {:induction false} InsertTidy(t: Tree, path: seq<string>, value: string)
    requires path != [] && Tidy(t) && Insert(t, path, value).Some?
    ensures Tidy(Insert(t, path, value).value) && Insert(t, path, value).value != EMPTY
    decreases |path|
  {
    var part, m := path[0], t.children;
    if |path| > 1 {
      InsertTidy(if part in m then m[part] else EMPTY, path[1..], value);
    }
    assert part in Insert(t, path, value).value.children;
  }

  /** Insertion fails exactly when some value stands on the way. */
  lemma {:induction false} InsertFailsIff(t: Tree, path: seq<string>, value: string)
    requires path != [] && t.Node?
    ensures Insert(t, path, value).Some? <==> Clear(t, path)
    decreases |path|
  {
    var part, m := path[0], t.children;
    if Clear(t, path) {
      InsertSpec(t, path, value);
    } else {
      var n :| 0 <= n < |path| && Lookup(t, path[..n]).Some?;
      assert path[..n] != [] && path[..n][0] == part;
      LookupStep(t, path, n);
      if m[part].Node? {
        InsertFailsIff(m[part], path[1..], value);
      }
    }
  }

  // --- prefix-free keys ---

  /** No key is a segment-wise prefix of another. */
  ghost predicate PrefixFree(flat: map<string, string>) {
    forall k, k' | k in flat && k' in flat && k != k' :: !(Split(k, '.') <= Split(k', '.'))
  }

  lemma SplitInjective(k: string, k': string)
    requires Split(k, '.') == Split(k', '.')
    ensures k == k'
  {
    JoinUndoesSplit(k, '.');
    JoinUndoesSplit(k', '.');
  }

  /** The tree holds exactly these keys. */
  ghost predicate Holds(t: Tree, flat: map<string, string>, keys: seq<string>)
    requires forall k | k in keys :: k in flat
  {
    && (forall k | k in keys :: Lookup(t, Split(k, '.')) == Some(flat[k]))
    && (forall q | Lookup(t, q).Some? :: exists k :: k in keys && Split(k, '.') == q)
  }

  lemma NextIsClear(t: Tree, flat: map<string, string>, keys: seq<string>, key: string)
    requires PrefixFree(flat) && key in flat && key !in keys && forall k | k in keys :: k in flat
    requires Holds(t, flat, keys)
    ensures Clear(t, Split(key, '.'))
    ensures forall q | Lookup(t, q).Some? :: !(Split(key, '.') <= q)
  {
    var path := Split(key, '.');
    forall n | 0 <= n < |path|
      ensures Lookup(t, path[..n]) == None
    {
      assert path[..n] <= path;
      assert forall k | k in keys :: !(Split(k, '.') <= path);
    }
  }

  lemma {:induction false} ConvertHolds(flat: map<string, string>, order: seq<string>)
    requires PrefixFree(flat) && forall k | k in order :: k in flat
    requires Distinct(order)
    ensures Convert(flat, order).Some?
    ensures var t := Convert(flat, order).value; t.Node? && Tidy(t) && Holds(t, flat, order)
  {
    if order != [] {
      var init, key := order[..|order| - 1], order[|order| - 1];
      assert order == init + [key] && key !in init;
      ConvertHolds(flat, init);
      var t := Convert(flat, init).value;
      var path := Split(key, '.');
      NextIsClear(t, flat, init, key);
      InsertSpec(t, path, flat[key]);
      InsertTidy(t, path, flat[key]);
      InsertHolds(t, flat, init, key);
    }
  }

  lemma InsertHolds(t: Tree, flat: map<string, string>, keys: seq<string>, key: string)
    requires PrefixFree(flat) && key in flat && key !in keys && forall k | k in keys :: k in flat
    requires t.Node? && Holds(t, flat, keys) && Clear(t, Split(key, '.'))
    ensures Insert(t, Split(key, '.'), flat[key]).Some?
    ensures Holds(Insert(t, Split(key, '.'), flat[key]).value, flat, keys + [key])
  {
    var path := Split(key, '.');
    InsertSpec(t, path, flat[key]);
    var t' := Insert(t, path, flat[key]).value;
    forall k | k in keys + [key]
      ensures Lookup(t', Split(k, '.')) == Some(flat[k])
    {
      if k != key {
        assert k in keys;
        assert !(path <= Split(k, '.'));
      }
    }
    forall q | Lookup(t', q).Some?
      ensures exists k :: k in keys + [key] && Split(k, '.') == q
    {
      if q == path {
        assert key in keys + [key];
      } else {
        var k :| k in keys && Split(k, '.') == q;
        assert k in keys + [key];
      }
    }
  }

  // --- a tidy tree is what it reads as ---

  lemma {:induction false} HasPath(t: Tree) returns (q: seq<string>)
    requires Tidy(t) && t != EMPTY
    ensures Lookup(t, q).Some?
    decreases t
  {
    match t
    case Leaf(_) => q := [];
    case Node(m) =>
      var k :| k in m;
      var rest := HasPath(m[k]);
      q := [k] + rest;
      assert q[1..] == rest;
  }

  lemma SameKeys(a: Tree, b: Tree, k: string)
    requires a.Node? && b.Node? && Tidy(a) && forall q :: Lookup(a, q) == Lookup(b, q)
    requires k in a.children
    ensures k in b.children
    ensures forall q :: Lookup(a.children[k], q) == Lookup(b.children[k], q)
  {
    var rest := HasPath(a.children[k]);
    LookupBelow(a, k, rest);
    LookupBelow(b, k, rest);
    assert Lookup(a, [k] + rest) == Lookup(b, [k] + rest);
    forall q
      ensures Lookup(a.children[k], q) == Lookup(b.children[k], q)
    {
      LookupBelow(a, k, q);
      LookupBelow(b, k, q);
      assert Lookup(a, [k] + q) == Lookup(b, [k] + q);
    }
  }

  lemma LookupBelow(t: Tree, k: string, q: seq<string>)
    requires t.Node?
    ensures Lookup(t, [k] + q) == if k in t.children then Lookup(t.children[k], q) else None
  {
    assert ([k] + q)[1..] == q;
  }

  lemma {:induction false} TidyIsCanonical(a: Tree, b: Tree)
    requires Tidy(a) && Tidy(b) && a.Node? == b.Node? && forall q :: Lookup(a, q) == Lookup(b, q)
    ensures a == b
    decreases a
  {
    if a.Leaf? {
      assert Lookup(a, []) == Lookup(b, []);
    } else {
      forall k | k in a.children
        ensures k in b.children && a.children[k] == b.children[k]
      {
        SameKeys(a, b, k);
        assert Lookup(a.children[k], []) == Lookup(b.children[k], []);
        TidyIsCanonical(a.children[k], b.children[k]);
      }
      forall k | k in b.children
        ensures k in a.children
      {
        SameKeys(b, a, k);
      }
      assert a.children == b.children;
    }
  }

  /** The same tree for every order in which the map is walked. */
  lemma ConvertIgnoresOrder(flat: map<string, string>, order: seq<string>, order': seq<string>)
    requires PrefixFree(flat) && Enumerates(order, flat) && Enumerates(order', flat)
    ensures Convert(flat, order).Some? && Convert(flat, order) == Convert(flat, order')
  {
    ConvertHolds(flat, order);
    ConvertHolds(flat, order');
    var a, b := Convert(flat, order).value, Convert(flat, order').value;
    forall q
      ensures Lookup(a, q) == Lookup(b, q)
    {
      HoldsAgree(a, b, flat, order, order', q);
      HoldsAgree(b, a, flat, order', order, q);
    }
    TidyIsCanonical(a, b);
  }

  lemma HoldsAgree(a: Tree, b: Tree, flat: map<string, string>, keys: seq<string>, keys': seq<string>, q: seq<string>)
    requires (forall k | k in keys :: k in flat) && forall k | k in keys' :: k in flat
    requires Holds(a, flat, keys) && Holds(b, flat, keys') && forall k | k in keys :: k in keys'
    ensures Lookup(a, q).Some? ==> Lookup(b, q) == Lookup(a, q)
  {
    if Lookup(a, q).Some? {
      var k :| k in keys && Split(k, '.') == q;
    }
  }

  // --- flattening ---

  ghost function Paths(t: Tree): set<seq<string>> {
    match t
    case Leaf(_) => {[]}
    case Node(m) => set k, q | k in m.Keys && q in Paths(m[k]) :: [k] + q
  }

  lemma {:induction false} PathsAreLookups(t: Tree, q: seq<string>)
    ensures q in Paths(t) <==> Lookup(t, q).Some?
    decreases t
  {
    match t
    case Leaf(_) =>
    case Node(m) =>
      if q != [] && q[0] in m {
        PathsAreLookups(m[q[0]], q[1..]);
        assert q == [q[0]] + q[1..];
      }
      if q in Paths(t) {
        var k, r :| k in m.Keys && r in Paths(m[k]) && q == [k] + r;
        assert q[0] == k && q[1..] == r;
      }
  }

  /** Every value of the tree under its dotted key. */
  ghost function Flatten(t: Tree): map<string, string> {
    map k | k in (set q | q in Paths(t) :: Join(q, '.')) && Lookup(t, Split(k, '.')).Some? ::
      Lookup(t, Split(k, '.')).value
  }

  /** Flattening the nested options gives the flat options back. */
  lemma FlattenUndoesConvert(flat: map<string, string>, order: seq<string>)
    requires PrefixFree(flat) && Enumerates(order, flat)
    ensures Convert(flat, order).Some? && Flatten(Convert(flat, order).value) == flat
  {
    ConvertHolds(flat, order);
    FlattenHeld(Convert(flat, order).value, flat, order);
  }

  lemma FlattenHeld(t: Tree, flat: map<string, string>, order: seq<string>)
    requires Enumerates(order, flat) && Holds(t, flat, order)
    ensures Flatten(t) == flat
  {
    forall k
      ensures k in Flatten(t) <==> k in flat
      ensures k in flat ==> Flatten(t)[k] == flat[k]
    {
      FlattenAt(t, k);
      HeldAt(t, flat, order, k);
    }
  }

  lemma HeldAt(t: Tree, flat: map<string, string>, order: seq<string>, k: string)
    requires Enumerates(order, flat) && Holds(t, flat, order)
    ensures Lookup(t, Split(k, '.')) == if k in flat then Some(flat[k]) else None
  {
    if Lookup(t, Split(k, '.')).Some? {
      var k' :| k' in order && Split(k', '.') == Split(k, '.');
      SplitInjective(k, k');
    }
  }

  /** Flatten reads the tree at a key's own path. */
  lemma FlattenAt(t: Tree, k: string)
    ensures k in Flatten(t) <==> Lookup(t, Split(k, '.')).Some?
    ensures k in Flatten(t) ==> Some(Flatten(t)[k]) == Lookup(t, Split(k, '.'))
  {
    PathsAreLookups(t, Split(k, '.'));
    JoinUndoesSplit(k, '.');
  }

  // --- when the conversion can fail ---

  lemma {:induction false} FailureStays(flat: map<string, string>, order: seq<string>, n: nat)
    requires (forall k | k in order :: k in flat) && n <= |order| && Convert(flat, order[..n]) == None
    ensures Convert(flat, order) == None
    decreases |order| - n
  {
    if n == |order| {
      assert order[..n] == order;
    } else {
      assert order[..n + 1][..n] == order[..n];
      FailureStays(flat, order, n + 1);
    }
  }

  /** A key below another key fails if it comes right after it. */
  lemma TwoKeysClash(flat: map<string, string>, k: string, k': string)
    requires k in flat && k' in flat && k != k' && Split(k, '.') <= Split(k', '.')
    ensures Convert(flat, [k, k']) == None
  {
    var p, p' := Split(k, '.'), Split(k', '.');
    if p == p' {
      SplitInjective(k, k');
    }
    assert [k][..0] == [];
    EmptyIsClear(p);
    InsertSpec(EMPTY, p, flat[k]);
    var t := Insert(EMPTY, p, flat[k]).value;
    assert Convert(flat, [k]) == Some(t);
    assert p'[..|p|] == p && Lookup(t, p'[..|p|]).Some?;
    InsertFailsIff(t, p', flat[k']);
    assert [k, k'][..1] == [k];
  }

  /** The conversion is safe for every walking order exactly when the keys are prefix-free. */
  lemma NeverFailsIff(flat: map<string, string>)
    ensures (forall order | Enumerates(order, flat) :: Convert(flat, order).Some?) <==> PrefixFree(flat)
  {
    if PrefixFree(flat) {
      forall order | Enumerates(order, flat)
        ensures Convert(flat, order).Some?
      {
        ConvertHolds(flat, order);
      }
    } else {
      var k, k' :| k in flat && k' in flat && k != k' && Split(k, '.') <= Split(k', '.');
      var order := ClashFirst(flat, k, k');
      TwoKeysClash(flat, k, k');
      FailureStays(flat, order, 2);
    }
  }

  /** An order that starts with two given keys. */
  lemma ClashFirst(flat: map<string, string>, k: string, k': string) returns (order: seq<string>)
    requires k in flat && k' in flat && k != k'
    ensures Enumerates(order, flat) && |order| >= 2 && order[..2] == [k, k']
  {
    var rest := Listing(flat.Keys - {k, k'});
    order := [k, k'] + rest;
    assert forall x :: x in order <==> x == k || x == k' || x in rest;
  }
}
