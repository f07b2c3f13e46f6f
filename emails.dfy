/** `parse_data`: the distinct e-mail addresses of a search response. */
module Emails {
  import opened Wrappers
  import opened Sequences
  import opened Envelope

  const EMAIL_FIELD := "email"

  /** `response.get('results', {})` */
  function ResultGroups(response: SearchResponse): Groups {
    response.results.GetOr([])
  }

  /** `e` is a truthy `email` value of some record of some group. */
  ghost predicate EmailPresent(groups: Groups, e: string) {
    e != "" && FieldOccurs(groups, EMAIL_FIELD, e)
  }

  /** The values Python treats as true: the non-empty strings, in order. */
  function Truthy(s: seq<string>): seq<string> {
    if s == [] then []
    else Truthy(s[..|s| - 1]) + (if s[|s| - 1] != "" then [s[|s| - 1]] else [])
  }

  lemma {:induction false} TruthyMembership(s: seq<string>, x: string)
    ensures x in Truthy(s) <==> x in s && x != ""
  {
    if s != [] {
      var front := s[..|s| - 1];
      assert s == front + [s[|s| - 1]];
      TruthyMembership(front, x);
    }
  }

  /** One more record of the collection loop: `if email: data.append(email)`. */
  lemma TruthyStep(seen: seq<string>, email: Option<string>)
    ensures Truthy(seen + (if email.Some? then [email.value] else [])) ==
      Truthy(seen) + (if email.Some? && email.value != "" then [email.value] else [])
  {
    if email.Some? {
      assert (seen + [email.value])[..|seen|] == seen;
    } else {
      assert seen + [] == seen;
    }
  }

  /** `list(set(data))`: one copy of each element, in no promised order. */
  method ListOfSet(elements: set<string>) returns (r: seq<string>)
    ensures NoDuplicates(r)
    ensures forall x :: x in r <==> x in elements
  {
    r := [];
    var rest := elements;
    while rest != {}
      invariant NoDuplicates(r)
      invariant forall x :: x in r <==> x in elements && x !in rest
      invariant rest <= elements
      decreases rest
    {
      var x :| x in rest;
      r := r + [x];
      rest := rest - {x};
    }
  }

  /** Every truthy `email` of every record, each exactly once; a response
      without `results` yields nothing. */
  method ParseData(response: SearchResponse) returns (emails: seq<string>)
    ensures NoDuplicates(emails)
    ensures forall e :: e in emails <==> EmailPresent(ResultGroups(response), e)
    ensures response.results.None? ==> emails == []
  {
    var groups := ResultGroups(response);
    var data: seq<string> := [];
    var g := 0;
    while g < |groups|
      invariant 0 <= g <= |groups|
      invariant data == Truthy(Items(groups[..g], EMAIL_FIELD))
    {
      var records := groups[g].1;
      var j := 0;
      assert records[..0] == [];
      assert Items(groups[..g], EMAIL_FIELD) + [] == Items(groups[..g], EMAIL_FIELD);
      while j < |records|
        invariant 0 <= j <= |records|
        invariant data == Truthy(Items(groups[..g], EMAIL_FIELD) + FieldValues(records[..j], EMAIL_FIELD))
      {
        var email := Get(records[j], EMAIL_FIELD);
        FieldValuesStep(records, j, EMAIL_FIELD);
        ghost var seen := Items(groups[..g], EMAIL_FIELD) + FieldValues(records[..j], EMAIL_FIELD);
        TruthyStep(seen, email);
        assert seen + (if email.Some? then [email.value] else []) ==
          Items(groups[..g], EMAIL_FIELD) + FieldValues(records[..j + 1], EMAIL_FIELD);
        if email.Some? && email.value != "" {
          data := data + [email.value];
        }
        j := j + 1;
      }
      assert records[..j] == records;
      ItemsStep(groups, g, EMAIL_FIELD);
      g := g + 1;
    }
    assert groups[..g] == groups;
    emails := ListOfSet(set x | x in data);
    forall e
      ensures e in emails <==> EmailPresent(groups, e)
    {
      TruthyMembership(Items(groups, EMAIL_FIELD), e);
      ItemsMembership(groups, EMAIL_FIELD, e);
    }
    if emails != [] {
      assert EmailPresent(groups, emails[0]);
    }
  }
}
