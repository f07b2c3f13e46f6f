/** Python's insertion-ordered `dict`, as a sequence of key-value pairs.

    `Lookup` reads the last pair with a key and `Put` overwrites that pair in
    place, or appends a new pair when the key is absent; on a dictionary with
    distinct keys, which is all Python ever builds, these are `d[k]` and
    `d[k] = v`. */
module OrderedDict {
  import opened Wrappers

  type Entries<V> = seq<(string, V)>

  function Keys<V>(e: Entries<V>): set<string> {
    if e == [] then {} else Keys(e[..|e| - 1]) + {e[|e| - 1].0}
  }

  predicate UniqueKeys<V>(e: Entries<V>) {
    forall i, j :: 0 <= i < j < |e| ==> e[i].0 != e[j].0
  }

  /** `d.get(k)` */
  function Lookup<V>(e: Entries<V>, k: string): (r: Option<V>)
    ensures r.Some? <==> k in Keys(e)
    ensures r.Some? ==> exists i :: 0 <= i < |e| && e[i] == (k, r.value)
  {
    if e == [] then None
    else if e[|e| - 1].0 == k then Some(e[|e| - 1].1)
    else Lookup(e[..|e| - 1], k)
  }

  lemma {:induction false} KeysAt<V>(e: Entries<V>, k: string)
    ensures k in Keys(e) <==> exists i :: 0 <= i < |e| && e[i].0 == k
  {
    if e != [] {
      var front := e[..|e| - 1];
      KeysAt(front, k);
      assert forall i :: 0 <= i < |front| ==> front[i] == e[i];
    }
  }

  /** With distinct keys, reading the key of a pair gives that pair's value. */
  lemma {:induction false} LookupAt<V>(e: Entries<V>, i: nat)
    requires UniqueKeys(e) && i < |e|
    ensures Lookup(e, e[i].0) == Some(e[i].1)
  {
    if i < |e| - 1 {
      var front := e[..|e| - 1];
      assert UniqueKeys(front) by {
        forall a | 0 <= a < |front| ensures front[a] == e[a] { }
      }
      LookupAt(front, i);
    }
  }

  /** The keys of two dictionaries laid end to end. */
  lemma {:induction false} KeysConcat<V>(a: Entries<V>, b: Entries<V>)
    ensures Keys(a + b) == Keys(a) + Keys(b)
  {
    if b == [] {
      assert a + b == a;
    } else {
      assert (a + b)[..|a + b| - 1] == a + b[..|b| - 1];
      KeysConcat(a, b[..|b| - 1]);
    }
  }

  /** `d[k] = v`: the pair for `k` gets the new value where it stands, or a new
      pair goes at the end. No other key's value or position changes. */
  function Put<V>(e: Entries<V>, k: string, v: V): (r: Entries<V>)
    ensures Keys(r) == Keys(e) + {k}
    ensures forall k' :: Lookup(r, k') == if k' == k then Some(v) else Lookup(e, k')
    ensures k !in Keys(e) ==> r == e + [(k, v)]
    ensures k in Keys(e) ==> |r| == |e|
    ensures forall i :: 0 <= i < |e| ==> r[i].0 == e[i].0
  {
    if k !in Keys(e) then
      assert (e + [(k, v)])[..|e|] == e;
      e + [(k, v)]
    else if e[|e| - 1].0 == k then
      assert (e[..|e| - 1] + [(k, v)])[..|e| - 1] == e[..|e| - 1];
      e[..|e| - 1] + [(k, v)]
    else
      var front := e[..|e| - 1];
      var r := Put(front, k, v) + [e[|e| - 1]];
      assert r[..|r| - 1] == Put(front, k, v);
      r
  }

  lemma PutKeepsKeysUnique<V>(e: Entries<V>, k: string, v: V)
    requires UniqueKeys(e)
    ensures UniqueKeys(Put(e, k, v))
  {
    var r := Put(e, k, v);
    if k !in Keys(e) {
      forall i | 0 <= i < |e| ensures e[i].0 != k {
        KeysAt(e, k);
      }
    }
  }

  /** `d.update(other)`: `d[k] = v` for each pair of `other` in turn. */
  function Update<V>(e: Entries<V>, other: Entries<V>): (r: Entries<V>)
    ensures Keys(r) == Keys(e) + Keys(other)
    ensures forall k :: Lookup(r, k) == if k in Keys(other) then Lookup(other, k) else Lookup(e, k)
    ensures |r| >= |e|
    ensures forall i :: 0 <= i < |e| ==> r[i].0 == e[i].0
  {
    if other == [] then e
    else
      var last := other[|other| - 1];
      Put(Update(e, other[..|other| - 1]), last.0, last.1)
  }

  /** Updating a dictionary with distinct keys keeps its keys distinct. */
  lemma {:induction false} UpdateKeepsKeysUnique<V>(e: Entries<V>, other: Entries<V>)
    requires UniqueKeys(e)
    ensures UniqueKeys(Update(e, other))
  {
    if other != [] {
      var last := other[|other| - 1];
      UpdateKeepsKeysUnique(e, other[..|other| - 1]);
      PutKeepsKeysUnique(Update(e, other[..|other| - 1]), last.0, last.1);
    }
  }

  /** Keys new to `e` are appended in `other`'s order. */
  lemma {:induction false} UpdateAppendsNewKeys<V>(e: Entries<V>, other: Entries<V>)
    requires UniqueKeys(other) && Keys(e) !! Keys(other)
    ensures Update(e, other) == e + other
  {
    if other == [] {
      assert e + other == e;
    } else {
      var front, last := other[..|other| - 1], other[|other| - 1];
      assert UniqueKeys(front) by {
        forall i | 0 <= i < |front| ensures front[i] == other[i] { }
      }
      UpdateAppendsNewKeys(e, front);
      assert last.0 !in Keys(front) by {
        KeysAt(front, last.0);
      }
      KeysConcat(e, front);
      assert (e + front) + [last] == e + other;
    }
  }

  /** Updating the empty map with distinct keys copies them in order. */
  lemma UpdateIntoEmpty<V>(other: Entries<V>)
    requires UniqueKeys(other)
    ensures Update([], other) == other
  {
    UpdateAppendsNewKeys([], other);
    assert [] + other == other;
  }
}
