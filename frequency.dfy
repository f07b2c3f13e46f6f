/** `string_search` after its `search` call: collect one field from every
    record, count the values, and keep those that are not too common. */
module Frequency {
  import opened Sequences
  import opened Envelope

  /** A value seen more often than this is taken to be shared (a default or
      common address) and is dropped. */
  const MAX_FREQUENCY: nat := 20

  /** A `collections.Counter`: its keys in first-insertion order and the
      multiplicity of each value. */
  datatype Counter = Counter(keys: seq<string>, counts: multiset<string>)

  /** `Counter(items)` */
  function Tally(items: seq<string>): (c: Counter)
    ensures NoDuplicates(c.keys)
    ensures FirstOccurrenceOrder(c.keys, items)
    ensures forall x :: x in c.keys <==> x in items
  {
    DistinctKeepsFirstOccurrenceOrder(items);
    Counter(Distinct(items), multiset(items))
  }

  /** `[item for item, count in frequency.items() if count <= 20]` over the
      keys `keys` with multiplicities `counts`. */
  function RareKeys(keys: seq<string>, counts: multiset<string>): (r: seq<string>)
    ensures forall x :: x in r <==> x in keys && counts[x] <= MAX_FREQUENCY
  {
    if keys == [] then []
    else
      var front, last := keys[..|keys| - 1], keys[|keys| - 1];
      assert keys == front + [last];
      RareKeys(front, counts) + (if counts[last] <= MAX_FREQUENCY then [last] else [])
  }

  /** Keeping some keys of a duplicate-free list in first-occurrence order
      leaves that order and duplicate freedom intact. */
  lemma {:induction false} RareKeysKeepOrder(keys: seq<string>, counts: multiset<string>, items: seq<string>)
    requires NoDuplicates(keys) && FirstOccurrenceOrder(keys, items)
    ensures NoDuplicates(RareKeys(keys, counts))
    ensures FirstOccurrenceOrder(RareKeys(keys, counts), items)
  {
    if keys != [] {
      var front, last := keys[..|keys| - 1], keys[|keys| - 1];
      DropLastKeepsFirstOccurrenceOrder(keys, items);
      RareKeysKeepOrder(front, counts, items);
      var d := RareKeys(front, counts);
      if counts[last] <= MAX_FREQUENCY {
        forall i | 0 <= i < |d|
          ensures d[i] != last && d[i] in items && FirstIndex(items, d[i]) < FirstIndex(items, last)
        {
          assert d[i] in d;
          EarlierKeysFirstOccurEarlier(keys, items, d[i]);
        }
        AppendKeepsFirstOccurrenceOrder(d, last, items);
      }
    }
  }

  /** Every key but the last first occurs before the last one does. */
  lemma EarlierKeysFirstOccurEarlier(keys: seq<string>, items: seq<string>, x: string)
    requires NoDuplicates(keys) && FirstOccurrenceOrder(keys, items)
    requires keys != [] && x in keys[..|keys| - 1]
    ensures x != keys[|keys| - 1] && x in items && keys[|keys| - 1] in items
    ensures FirstIndex(items, x) < FirstIndex(items, keys[|keys| - 1])
  {
    var i :| 0 <= i < |keys| - 1 && keys[..|keys| - 1][i] == x;
    assert keys[i] == x;
  }

  /** The values of `items` that occur at most MAX_FREQUENCY times, each once,
      in the order of their first occurrence. */
  function FrequencyFilter(items: seq<string>): (r: seq<string>)
    ensures NoDuplicates(r)
    ensures forall x :: x in r <==> x in items && multiset(items)[x] <= MAX_FREQUENCY
    ensures FirstOccurrenceOrder(r, items)
  {
    var frequency := Tally(items);
    RareKeysKeepOrder(frequency.keys, frequency.counts, items);
    RareKeys(frequency.keys, frequency.counts)
  }

  /** The lines after `search` in `string_search`: the values of `field` that
      occur in at most MAX_FREQUENCY records, each once, in order of first
      occurrence. */
  method StringSearch(response: SearchResponse, field: string) returns (result: seq<string>)
    requires response.results.Some?
    ensures result == FrequencyFilter(Items(response.results.value, field))
    ensures NoDuplicates(result)
    ensures forall v :: v in result <==>
      FieldOccurs(response.results.value, field, v) &&
      multiset(Items(response.results.value, field))[v] <= MAX_FREQUENCY
    ensures FirstOccurrenceOrder(result, Items(response.results.value, field))
    ensures (forall v :: !FieldOccurs(response.results.value, field, v)) ==> result == []
  {
    var groups := response.results.value;
    var items: seq<string> := [];
    var g := 0;
    while g < |groups|
      invariant 0 <= g <= |groups|
      invariant items == Items(groups[..g], field)
    {
      var records := groups[g].1;
      var j := 0;
      assert records[..0] == [];
      assert items + [] == items;
      while j < |records|
        invariant 0 <= j <= |records|
        invariant items == Items(groups[..g], field) + FieldValues(records[..j], field)
      {
        FieldValuesStep(records, j, field);
        if field in records[j] {
          items := items + [records[j][field]];
        }
        j := j + 1;
      }
      assert records[..j] == records;
      ItemsStep(groups, g, field);
      g := g + 1;
    }
    assert groups[..g] == groups;
    var frequency := Tally(items);
    result := RareKeys(frequency.keys, frequency.counts);
    FilteredFieldValues(groups, field);
  }

  /** What the frequency filter keeps, stated on the records themselves. */
  lemma FilteredFieldValues(groups: Groups, field: string)
    ensures forall v :: v in FrequencyFilter(Items(groups, field)) <==>
      FieldOccurs(groups, field, v) && multiset(Items(groups, field))[v] <= MAX_FREQUENCY
    ensures (forall v :: !FieldOccurs(groups, field, v)) ==> FrequencyFilter(Items(groups, field)) == []
  {
    var r := FrequencyFilter(Items(groups, field));
    forall v
      ensures v in r <==> FieldOccurs(groups, field, v) && multiset(Items(groups, field))[v] <= MAX_FREQUENCY
    {
      ItemsMembership(groups, field, v);
    }
    if r != [] {
      assert FieldOccurs(groups, field, r[0]);
    }
  }

  /** A duplicate-free list whose elements are exactly `a` and `c`. */
  lemma ExactlyTwo(r: seq<string>, a: string, c: string)
    requires a != c && NoDuplicates(r) && a in r && c in r
    requires forall i :: 0 <= i < |r| ==> r[i] == a || r[i] == c
    ensures r == [a, c] || r == [c, a]
  {
    ElementsOfDistinct(r);
    assert (set x | x in r) == {a, c};
  }

  /** When exactly two values `a` and `c` are rare enough, the filter yields
      them in the order in which they first occur. */
  lemma FilterKeepsTwo(items: seq<string>, a: string, c: string)
    requires a != c && a in items && c in items && FirstIndex(items, a) < FirstIndex(items, c)
    requires multiset(items)[a] <= MAX_FREQUENCY && multiset(items)[c] <= MAX_FREQUENCY
    requires forall x :: x in items && x != a && x != c ==> multiset(items)[x] > MAX_FREQUENCY
    ensures FrequencyFilter(items) == [a, c]
  {
    var r := FrequencyFilter(items);
    assert forall i :: 0 <= i < |r| ==> r[i] == a || r[i] == c;
    ExactlyTwo(r, a, c);
  }

  function ThreeCounts(a: string, b: string, c: string, nb: nat, nc: nat, x: string): nat {
    (if x == a then 1 else 0) + (if x == b then nb else 0) + (if x == c then nc else 0)
  }

  lemma CountsOfThree(a: string, b: string, c: string, nb: nat, nc: nat, x: string)
    ensures multiset([a] + Repeat(b, nb) + Repeat(c, nc))[x] == ThreeCounts(a, b, c, nb, nc, x)
  {
    RepeatCount(b, nb, x);
    RepeatCount(c, nc, x);
  }

  /** The inclusive bound: of a value seen once, one seen more than
      MAX_FREQUENCY times and one seen at most MAX_FREQUENCY times (for
      instance once, 21 and 20 times), the first and the last are kept, in
      that order. */
  lemma ThresholdIsInclusive(a: string, b: string, c: string, nb: nat, nc: nat)
    requires a != b && b != c && a != c
    requires nb > MAX_FREQUENCY && 0 < nc <= MAX_FREQUENCY
    ensures FrequencyFilter([a] + Repeat(b, nb) + Repeat(c, nc)) == [a, c]
  {
    var items := [a] + Repeat(b, nb) + Repeat(c, nc);
    forall x ensures multiset(items)[x] == ThreeCounts(a, b, c, nb, nc, x) {
      CountsOfThree(a, b, c, nb, nc, x);
    }
    assert items[0] == a && items[|items| - 1] == c;
    FilterKeepsTwo(items, a, c);
  }
}
