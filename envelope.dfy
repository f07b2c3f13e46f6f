/** The JSON values the lookup service returns, as the core code reads them.

    A record is a string-to-string dictionary. A search response's `results`
    is a dictionary from a group name (a breached data set) to that group's
    records; Python dictionaries keep insertion order, so it is an ordered
    sequence of pairs. */
module Envelope {
  import opened Wrappers

  type Record = map<string, string>
  type Group = (string, seq<Record>)
  type Groups = seq<Group>

  /** A decoded search response; `results` is None when the key is missing. */
  datatype SearchResponse = SearchResponse(results: Option<Groups>)

  /** The outcome of one call through the request sender: the decoded body on
      status 200, otherwise the error `raise_for_status` raises. */
  datatype Reply<T> = Ok(body: T) | HttpError(status: int)

  /** `record.get(key)` */
  function Get(record: Record, key: string): Option<string> {
    if key in record then Some(record[key]) else None
  }

  /** The values of `field` in the records that have that key, in record order;
      an empty value is kept. */
  function FieldValues(records: seq<Record>, field: string): seq<string> {
    if records == [] then []
    else
      var last := records[|records| - 1];
      FieldValues(records[..|records| - 1], field) + (if field in last then [last[field]] else [])
  }

  /** The values of `field` across every group, in group order and then record order. */
  function Items(groups: Groups, field: string): seq<string> {
    if groups == [] then []
    else Items(groups[..|groups| - 1], field) + FieldValues(groups[|groups| - 1].1, field)
  }

  /** One more record of the collection loop. */
  lemma FieldValuesStep(records: seq<Record>, j: nat, field: string)
    requires j < |records|
    ensures FieldValues(records[..j + 1], field) ==
      FieldValues(records[..j], field) + (if field in records[j] then [records[j][field]] else [])
  {
    assert records[..j + 1][..j] == records[..j];
  }

  /** One more group of the collection loop. */
  lemma ItemsStep(groups: Groups, g: nat, field: string)
    requires g < |groups|
    ensures Items(groups[..g + 1], field) == Items(groups[..g], field) + FieldValues(groups[g].1, field)
  {
    assert groups[..g + 1][..g] == groups[..g];
  }

  /** Some record of some group has `field` with value `v`. */
  ghost predicate FieldOccurs(groups: Groups, field: string, v: string) {
    exists g, j :: 0 <= g < |groups| && 0 <= j < |groups[g].1| &&
      field in groups[g].1[j] && groups[g].1[j][field] == v
  }

  lemma {:induction false} FieldValuesMembership(records: seq<Record>, field: string, v: string)
    ensures v in FieldValues(records, field) <==>
      exists j :: 0 <= j < |records| && field in records[j] && records[j][field] == v
  {
    if records != [] {
      var front := records[..|records| - 1];
      FieldValuesMembership(front, field, v);
      assert forall j :: 0 <= j < |front| ==> front[j] == records[j];
    }
  }

  /** A value occurs in `front` plus one more group exactly when it occurs in
      `front` or in a record of that group. */
  lemma FieldOccursSnoc(front: Groups, last: Group, field: string, v: string)
    ensures FieldOccurs(front + [last], field, v) <==>
      FieldOccurs(front, field, v) ||
      exists j :: 0 <= j < |last.1| && field in last.1[j] && last.1[j][field] == v
  {
    var groups := front + [last];
    if FieldOccurs(front, field, v) {
      var g, j :| 0 <= g < |front| && 0 <= j < |front[g].1| &&
        field in front[g].1[j] && front[g].1[j][field] == v;
      assert groups[g] == front[g];
    }
    if exists j :: 0 <= j < |last.1| && field in last.1[j] && last.1[j][field] == v {
      var j :| 0 <= j < |last.1| && field in last.1[j] && last.1[j][field] == v;
      assert groups[|front|] == last;
    }
    if FieldOccurs(groups, field, v) {
      var g, j :| 0 <= g < |groups| && 0 <= j < |groups[g].1| &&
        field in groups[g].1[j] && groups[g].1[j][field] == v;
      if g < |front| {
        assert front[g] == groups[g];
      }
    }
  }

  /** A value is collected exactly when some record carries it under `field`. */
  lemma {:induction false} ItemsMembership(groups: Groups, field: string, v: string)
    ensures v in Items(groups, field) <==> FieldOccurs(groups, field, v)
  {
    if groups != [] {
      var front, last := groups[..|groups| - 1], groups[|groups| - 1];
      ItemsMembership(front, field, v);
      FieldValuesMembership(last.1, field, v);
      assert groups == front + [last];
      FieldOccursSnoc(front, last, field, v);
    }
  }

  /** Collection runs through the records in order: a list of records split in
      two collects the first part's values and then the second's. */
  lemma {:induction false} FieldValuesConcat(a: seq<Record>, b: seq<Record>, field: string)
    ensures FieldValues(a + b, field) == FieldValues(a, field) + FieldValues(b, field)
  {
    if b != [] {
      var front := b[..|b| - 1];
      assert (a + b)[..|a + b| - 1] == a + front;
      FieldValuesConcat(a, front, field);
    } else {
      assert a + b == a;
    }
  }

  /** Collection runs through the groups in order. */
  lemma {:induction false} ItemsConcat(a: Groups, b: Groups, field: string)
    ensures Items(a + b, field) == Items(a, field) + Items(b, field)
  {
    if b != [] {
      var front := b[..|b| - 1];
      assert (a + b)[..|a + b| - 1] == a + front;
      ItemsConcat(a, front, field);
    } else {
      assert a + b == a;
    }
  }

  /** A single record contributes its value of `field` if it has that key, even
      an empty one, and nothing otherwise. */
  lemma RecordContribution(record: Record, field: string)
    ensures FieldValues([record], field) == if field in record then [record[field]] else []
  {
    assert [record][..0] == [];
  }
}
