/** `filter_by_location` after its `string_search` call: look the addresses
    up in chunks, merge the per-chunk whois maps and keep the addresses whose
    country code is the one asked for. */
module Location {
  import opened Wrappers
  import opened Sequences
  import opened Envelope
  import opened OrderedDict
  import opened Chunking
  import opened Frequency

  /** The field `filter_by_location` collects from the search records. */
  const LAST_IP := "lastip"
  const COUNTRY_CODE := "countryCode"
  const COUNTRY := "country"
  const CITY := "city"
  /** The value reported for a missing country or city. */
  const UNKNOWN := "Unknown"

  /** What whois says about one address. */
  type Info = Record

  /** A decoded whois response; `results` maps each address to its info and is
      None when the key is missing. */
  datatype WhoisResponse = WhoisResponse(results: Option<Entries<Info>>)

  /** The whois service: one request for one chunk of addresses. */
  type Whois = seq<string> -> Reply<WhoisResponse>

  /** One matching address with its place. */
  datatype Location = Location(ip: string, country: string, city: string)

  /** The whois calls for `chunks`, made in order; the first failing call ends
      the run with its error and no later call is made. */
  function Fetch(chunks: seq<seq<string>>, whois: Whois): Reply<seq<WhoisResponse>> {
    if chunks == [] then Ok([])
    else
      match Fetch(chunks[..|chunks| - 1], whois)
      case HttpError(status) => HttpError(status)
      case Ok(responses) =>
        match whois(chunks[|chunks| - 1])
        case HttpError(status) => HttpError(status)
        case Ok(response) => Ok(responses + [response])
  }

  /** `response` has `results` and they mention `ip`. */
  predicate Holds(response: WhoisResponse, ip: string) {
    response.results.Some? && ip in Keys(response.results.value)
  }

  /** One turn of the merge loop: `aggregated.update(response["results"])` if
      `"results" in response`. */
  function Absorb(aggregated: Entries<Info>, response: WhoisResponse): Entries<Info> {
    if response.results.Some? then Update(aggregated, response.results.value) else aggregated
  }

  /** The merge loop over all responses, in order. */
  function MergeAll(aggregated: Entries<Info>, responses: seq<WhoisResponse>): Entries<Info> {
    if responses == [] then aggregated
    else Absorb(MergeAll(aggregated, responses[..|responses| - 1]), responses[|responses| - 1])
  }

  /** `info.get('countryCode') == country_code`: false when the key is missing. */
  predicate Matches(info: Info, countryCode: string) {
    Get(info, COUNTRY_CODE) == Some(countryCode)
  }

  /** The output record for `ip`, with "Unknown" for a missing country or city. */
  function LocationOf(ip: string, info: Info): Location {
    Location(ip, Get(info, COUNTRY).GetOr(UNKNOWN), Get(info, CITY).GetOr(UNKNOWN))
  }

  /** The output records of the entries that match, in entry order. */
  function Matching(entries: Entries<Info>, countryCode: string): seq<Location> {
    if entries == [] then []
    else
      var last := entries[|entries| - 1];
      Matching(entries[..|entries| - 1], countryCode) +
        (if Matches(last.1, countryCode) then [LocationOf(last.0, last.1)] else [])
  }

  /** The merged whois results for the addresses `ips`, or the error of the
      whois call that failed. */
  function Aggregate(ips: seq<string>, whois: Whois): Reply<Entries<Info>> {
    match Fetch(Chunks(ips), whois)
    case HttpError(status) => HttpError(status)
    case Ok(responses) => Ok(MergeAll([], responses))
  }

  /** What `filter_by_location` returns for the addresses `ips`. */
  function Report(ips: seq<string>, whois: Whois, countryCode: string): Reply<seq<Location>> {
    match Aggregate(ips, whois)
    case HttpError(status) => HttpError(status)
    case Ok(merged) => Ok(Matching(merged, countryCode))
  }

  /** Once a call has failed, the calls after it change nothing. */
  lemma {:induction false} FetchStopsAtFailure(a: seq<seq<string>>, b: seq<seq<string>>, whois: Whois)
    requires Fetch(a, whois).HttpError?
    ensures Fetch(a + b, whois) == Fetch(a, whois)
  {
    if b != [] {
      var front := b[..|b| - 1];
      assert (a + b)[..|a + b| - 1] == a + front;
      FetchStopsAtFailure(a, front, whois);
    } else {
      assert a + b == a;
    }
  }

  /** The run succeeds exactly when every call does, and then holds one
      response per chunk, in chunk order; otherwise it carries the error of the
      first call that failed. */
  lemma {:induction false} FetchOutcome(chunks: seq<seq<string>>, whois: Whois)
    ensures Fetch(chunks, whois).Ok? <==> forall k :: 0 <= k < |chunks| ==> whois(chunks[k]).Ok?
    ensures Fetch(chunks, whois).Ok? ==>
      |Fetch(chunks, whois).body| == |chunks| &&
      forall k :: 0 <= k < |chunks| ==> Fetch(chunks, whois).body[k] == whois(chunks[k]).body
    ensures Fetch(chunks, whois).HttpError? ==>
      exists k :: 0 <= k < |chunks| && whois(chunks[k]) == HttpError(Fetch(chunks, whois).status) &&
        forall j :: 0 <= j < k ==> whois(chunks[j]).Ok?
  {
    if chunks != [] {
      var front, last := chunks[..|chunks| - 1], chunks[|chunks| - 1];
      FetchOutcome(front, whois);
      assert forall k :: 0 <= k < |front| ==> chunks[k] == front[k];
      var f := Fetch(front, whois);
      if f.HttpError? {
        var k :| 0 <= k < |front| && whois(front[k]) == HttpError(f.status) &&
          forall j :: 0 <= j < k ==> whois(front[j]).Ok?;
        assert whois(chunks[k]) == HttpError(Fetch(chunks, whois).status);
      } else if whois(last).HttpError? {
        assert whois(chunks[|chunks| - 1]) == HttpError(Fetch(chunks, whois).status);
      }
    }
  }

  /** After the merge loop the keys are those the accumulator started with
      and those of every response that has `results`. */
  lemma {:induction false} MergeAllKeys(aggregated: Entries<Info>, responses: seq<WhoisResponse>, ip: string)
    ensures ip in Keys(MergeAll(aggregated, responses)) <==>
      ip in Keys(aggregated) || exists i :: 0 <= i < |responses| && Holds(responses[i], ip)
  {
    if responses != [] {
      var front := responses[..|responses| - 1];
      MergeAllKeys(aggregated, front, ip);
      assert forall i :: 0 <= i < |front| ==> responses[i] == front[i];
    }
  }

  /** A key takes its value from the last response that mentions it. */
  lemma {:induction false} MergeAllLastWins(aggregated: Entries<Info>, responses: seq<WhoisResponse>, ip: string, i: nat)
    requires i < |responses| && Holds(responses[i], ip)
    requires forall j :: i < j < |responses| ==> !Holds(responses[j], ip)
    ensures Lookup(MergeAll(aggregated, responses), ip) == Lookup(responses[i].results.value, ip)
  {
    var front := responses[..|responses| - 1];
    if i < |responses| - 1 {
      assert responses[i] == front[i];
      MergeAllLastWins(aggregated, front, ip, i);
    }
  }

  /** A key no response mentions keeps the accumulator's value. */
  lemma {:induction false} MergeAllUntouched(aggregated: Entries<Info>, responses: seq<WhoisResponse>, ip: string)
    requires forall i :: 0 <= i < |responses| ==> !Holds(responses[i], ip)
    ensures Lookup(MergeAll(aggregated, responses), ip) == Lookup(aggregated, ip)
  {
    if responses != [] {
      var front := responses[..|responses| - 1];
      assert !Holds(responses[|responses| - 1], ip);
      assert forall i :: 0 <= i < |front| ==> front[i] == responses[i];
      MergeAllUntouched(aggregated, front, ip);
    }
  }

  /** The merged map never holds two entries for one address. */
  lemma {:induction false} MergeAllKeepsKeysUnique(aggregated: Entries<Info>, responses: seq<WhoisResponse>)
    requires UniqueKeys(aggregated)
    ensures UniqueKeys(MergeAll(aggregated, responses))
  {
    if responses != [] {
      var front, last := responses[..|responses| - 1], responses[|responses| - 1];
      MergeAllKeepsKeysUnique(aggregated, front);
      if last.results.Some? {
        UpdateKeepsKeysUnique(MergeAll(aggregated, front), last.results.value);
      }
    }
  }

  /** The responses that have `results`, in order. */
  function WithResults(responses: seq<WhoisResponse>): seq<WhoisResponse> {
    if responses == [] then []
    else
      var last := responses[|responses| - 1];
      WithResults(responses[..|responses| - 1]) + (if last.results.Some? then [last] else [])
  }

  /** Responses without `results` change nothing. */
  lemma {:induction false} MergeIgnoresResponsesWithoutResults(aggregated: Entries<Info>, responses: seq<WhoisResponse>)
    ensures MergeAll(aggregated, responses) == MergeAll(aggregated, WithResults(responses))
  {
    if responses != [] {
      var front, last := responses[..|responses| - 1], responses[|responses| - 1];
      MergeIgnoresResponsesWithoutResults(aggregated, front);
      if last.results.Some? {
        var w := WithResults(front) + [last];
        assert w[..|w| - 1] == WithResults(front);
      } else {
        assert WithResults(responses) == WithResults(front) + [] == WithResults(front);
      }
    }
  }

  /** A record is reported exactly for each merged entry whose country code is
      the one asked for, built from that entry. */
  lemma {:induction false} MatchingMembership(entries: Entries<Info>, countryCode: string, loc: Location)
    ensures loc in Matching(entries, countryCode) <==>
      exists i :: 0 <= i < |entries| && Matches(entries[i].1, countryCode) &&
        loc == LocationOf(entries[i].0, entries[i].1)
  {
    if entries != [] {
      var front := entries[..|entries| - 1];
      MatchingMembership(front, countryCode, loc);
      assert forall i :: 0 <= i < |front| ==> front[i] == entries[i];
    }
  }

  /** Records come out in the order of the merged map. */
  lemma {:induction false} MatchingConcat(a: Entries<Info>, b: Entries<Info>, countryCode: string)
    ensures Matching(a + b, countryCode) == Matching(a, countryCode) + Matching(b, countryCode)
  {
    if b != [] {
      var front := b[..|b| - 1];
      assert (a + b)[..|a + b| - 1] == a + front;
      MatchingConcat(a, front, countryCode);
    } else {
      assert a + b == a;
    }
  }

  /** Every reported address is a key of the merged map. */
  lemma {:induction false} MatchingIpsAreKeys(entries: Entries<Info>, countryCode: string, i: nat)
    requires i < |Matching(entries, countryCode)|
    ensures Matching(entries, countryCode)[i].ip in Keys(entries)
  {
    var front := entries[..|entries| - 1];
    if i < |Matching(front, countryCode)| {
      MatchingIpsAreKeys(front, countryCode, i);
    }
  }

  /** A map with distinct keys yields each address at most once. */
  lemma {:induction false} MatchingIpsDistinct(entries: Entries<Info>, countryCode: string)
    requires UniqueKeys(entries)
    ensures forall i, j :: 0 <= i < j < |Matching(entries, countryCode)| ==>
      Matching(entries, countryCode)[i].ip != Matching(entries, countryCode)[j].ip
  {
    if entries != [] {
      var front, last := entries[..|entries| - 1], entries[|entries| - 1];
      assert UniqueKeys(front) by {
        forall i | 0 <= i < |front| ensures front[i] == entries[i] { }
      }
      MatchingIpsDistinct(front, countryCode);
      KeysAt(front, last.0);
      var m, r := Matching(front, countryCode), Matching(entries, countryCode);
      forall i, j | 0 <= i < j < |r| ensures r[i].ip != r[j].ip {
        if j >= |m| {
          MatchingIpsAreKeys(front, countryCode, i);
          assert r[i] == m[i];
        } else {
          assert r[i] == m[i] && r[j] == m[j];
        }
      }
    }
  }

  /** On a map with distinct addresses, an address is reported iff it is a key
      whose info has the asked country code, and it is reported with that info. */
  lemma MatchingByLookup(entries: Entries<Info>, countryCode: string, loc: Location)
    requires UniqueKeys(entries)
    ensures loc in Matching(entries, countryCode) <==>
      loc.ip in Keys(entries) && Matches(Lookup(entries, loc.ip).value, countryCode) &&
      loc == LocationOf(loc.ip, Lookup(entries, loc.ip).value)
  {
    MatchingMembership(entries, countryCode, loc);
    KeysAt(entries, loc.ip);
    if loc in Matching(entries, countryCode) {
      var i :| 0 <= i < |entries| && Matches(entries[i].1, countryCode) &&
        loc == LocationOf(entries[i].0, entries[i].1);
      LookupAt(entries, i);
    } else if loc.ip in Keys(entries) {
      var i :| 0 <= i < |entries| && entries[i] == (loc.ip, Lookup(entries, loc.ip).value);
      assert !(Matches(entries[i].1, countryCode) && loc == LocationOf(entries[i].0, entries[i].1));
    }
  }

  /** A reported address carries the country and city of the last whois
      response that mentions it, and is reported iff that response gives it
      the asked country code. */
  lemma ReportedFromLastResponse(responses: seq<WhoisResponse>, countryCode: string, loc: Location, i: nat)
    requires i < |responses| && Holds(responses[i], loc.ip)
    requires forall j :: i < j < |responses| ==> !Holds(responses[j], loc.ip)
    ensures loc in Matching(MergeAll([], responses), countryCode) <==>
      Matches(Lookup(responses[i].results.value, loc.ip).value, countryCode) &&
      loc == LocationOf(loc.ip, Lookup(responses[i].results.value, loc.ip).value)
  {
    MergeAllKeepsKeysUnique([], responses);
    MergeAllKeys([], responses, loc.ip);
    MergeAllLastWins([], responses, loc.ip, i);
    MatchingByLookup(MergeAll([], responses), countryCode, loc);
  }

  /** The `results` of the responses that have them, laid end to end. */
  function AllResults(responses: seq<WhoisResponse>): Entries<Info> {
    if responses == [] then []
    else
      var last := responses[|responses| - 1];
      AllResults(responses[..|responses| - 1]) + (if last.results.Some? then last.results.value else [])
  }

  /** The reports of the responses taken one at a time, in response order. */
  function ResponseReports(responses: seq<WhoisResponse>, countryCode: string): seq<Location> {
    if responses == [] then []
    else
      var last := responses[|responses| - 1];
      ResponseReports(responses[..|responses| - 1], countryCode) +
        (if last.results.Some? then Matching(last.results.value, countryCode) else [])
  }

  /** No two responses mention the same address, and none mentions one twice. */
  ghost predicate DisjointResults(responses: seq<WhoisResponse>) {
    && (forall i :: 0 <= i < |responses| && responses[i].results.Some? ==> UniqueKeys(responses[i].results.value))
    && (forall i, j, ip :: 0 <= i < j < |responses| && Holds(responses[i], ip) ==> !Holds(responses[j], ip))
  }

  lemma DisjointResultsFront(responses: seq<WhoisResponse>)
    requires responses != [] && DisjointResults(responses)
    ensures DisjointResults(responses[..|responses| - 1])
  {
    var front := responses[..|responses| - 1];
    assert forall i :: 0 <= i < |front| ==> front[i] == responses[i];
  }

  /** The addresses of all results are those some response mentions. */
  lemma {:induction false} AllResultsKeys(responses: seq<WhoisResponse>, ip: string)
    ensures ip in Keys(AllResults(responses)) <==> exists i :: 0 <= i < |responses| && Holds(responses[i], ip)
  {
    if responses != [] {
      var front, last := responses[..|responses| - 1], responses[|responses| - 1];
      AllResultsKeys(front, ip);
      KeysConcat(AllResults(front), if last.results.Some? then last.results.value else []);
      assert forall i :: 0 <= i < |front| ==> front[i] == responses[i];
      assert Holds(responses[|responses| - 1], ip) <==> Holds(last, ip);
    }
  }

  /** When the responses mention disjoint addresses, as they do for the
      deduplicated `term_ips`, merging appends each response's results in turn. */
  lemma {:induction false} MergeAllAppends(responses: seq<WhoisResponse>)
    requires DisjointResults(responses)
    ensures MergeAll([], responses) == AllResults(responses)
  {
    if responses != [] {
      var front, last := responses[..|responses| - 1], responses[|responses| - 1];
      DisjointResultsFront(responses);
      MergeAllAppends(front);
      if last.results.Some? {
        forall ip | ip in Keys(last.results.value) ensures ip !in Keys(AllResults(front)) {
          AllResultsKeys(front, ip);
          assert Holds(responses[|responses| - 1], ip);
          forall i | 0 <= i < |front| ensures !Holds(front[i], ip) {
            assert front[i] == responses[i];
          }
        }
        assert UniqueKeys(responses[|responses| - 1].results.value);
        UpdateAppendsNewKeys(AllResults(front), last.results.value);
      }
    }
  }

  /** The matching records over all results are each response's matching records in order. */
  lemma {:induction false} MatchingAllResults(responses: seq<WhoisResponse>, countryCode: string)
    ensures Matching(AllResults(responses), countryCode) == ResponseReports(responses, countryCode)
  {
    if responses != [] {
      var front, last := responses[..|responses| - 1], responses[|responses| - 1];
      MatchingAllResults(front, countryCode);
      MatchingConcat(AllResults(front), if last.results.Some? then last.results.value else [], countryCode);
    }
  }

  /** With disjoint responses the output lists the matching addresses chunk by
      chunk, and within a chunk in the order of its response. */
  lemma ReportFollowsResponseOrder(responses: seq<WhoisResponse>, countryCode: string)
    requires DisjointResults(responses)
    ensures Matching(MergeAll([], responses), countryCode) == ResponseReports(responses, countryCode)
  {
    MergeAllAppends(responses);
    MatchingAllResults(responses, countryCode);
  }

  /** Fewer addresses than CHUNK_SIZE go out in one call. */
  lemma OneChunk(ips: seq<string>)
    requires 0 < |ips| <= CHUNK_SIZE
    ensures Chunks(ips) == [ips]
  {
    assert Slice(ips, 0, CHUNK_SIZE) == ips;
    assert ChunksFrom(ips, CHUNK_SIZE) == [];
  }

  /** A single successful call. */
  lemma FetchOne(chunk: seq<string>, whois: Whois)
    requires whois(chunk).Ok?
    ensures Fetch([chunk], whois) == Ok([whois(chunk).body])
  {
    var none: seq<seq<string>> := [];
    var received: seq<WhoisResponse> := [];
    FetchStep(none, chunk, whois);
    assert none + [chunk] == [chunk];
    assert Fetch(none, whois) == Ok(received);
    assert received + [whois(chunk).body] == [whois(chunk).body];
  }

  /** One response merged into the empty map. */
  lemma MergeOne(response: WhoisResponse)
    requires response.results.Some? && UniqueKeys(response.results.value)
    ensures MergeAll([], [response]) == response.results.value
  {
    MergeStep([], response);
    assert [] + [response] == [response];
    UpdateIntoEmpty(response.results.value);
  }

  /** Two addresses go out in one whois call; the answer has one in the US
      with country and city and one in France: asking for "US" reports the
      first only. */
  lemma ReportExample(whois: Whois)
    requires whois(["1.1.1.1", "3.3.3.3"]) == Ok(WhoisResponse(Some([
               ("1.1.1.1", map[COUNTRY_CODE := "US", COUNTRY := "USA", CITY := "NYC"]),
               ("3.3.3.3", map[COUNTRY_CODE := "FR"])])))
    ensures Report(["1.1.1.1", "3.3.3.3"], whois, "US") == Ok([Location("1.1.1.1", "USA", "NYC")])
  {
    var ips := ["1.1.1.1", "3.3.3.3"];
    var us := map[COUNTRY_CODE := "US", COUNTRY := "USA", CITY := "NYC"];
    var fr := map[COUNTRY_CODE := "FR"];
    var entries := [("1.1.1.1", us), ("3.3.3.3", fr)];
    OneChunk(ips);
    FetchOne(ips, whois);
    MergeOne(WhoisResponse(Some(entries)));
    assert Matching(entries, "US") == [Location("1.1.1.1", "USA", "NYC")] by {
      assert entries[..1] == [("1.1.1.1", us)];
      assert Matching(entries[..1], "US") == [Location("1.1.1.1", "USA", "NYC")];
      assert "FR" != "US";
    }
  }

  /** One more call of the chunk loop. */
  lemma FetchStep(done: seq<seq<string>>, chunk: seq<string>, whois: Whois)
    ensures Fetch(done + [chunk], whois) ==
      match Fetch(done, whois)
      case HttpError(status) => HttpError(status)
      case Ok(responses) =>
        match whois(chunk)
        case HttpError(status) => HttpError(status)
        case Ok(response) => Ok(responses + [response])
  {
    assert (done + [chunk])[..|done|] == done;
  }

  /** One more turn of the merge loop. */
  lemma MergeStep(responses: seq<WhoisResponse>, response: WhoisResponse)
    ensures MergeAll([], responses + [response]) == Absorb(MergeAll([], responses), response)
  {
    assert (responses + [response])[..|responses|] == responses;
  }

  /** A failing whois call on the chunk at offset `i` ends the aggregation with its status. */
  lemma AggregateFailsAt(ips: seq<string>, done: seq<seq<string>>, fetched: seq<WhoisResponse>, i: nat, whois: Whois)
    requires i < |ips| && Chunks(ips) == done + ChunksFrom(ips, i)
    requires Fetch(done, whois) == Ok(fetched)
    requires whois(Slice(ips, i, i + CHUNK_SIZE)).HttpError?
    ensures Aggregate(ips, whois) == HttpError(whois(Slice(ips, i, i + CHUNK_SIZE)).status)
  {
    var chunk := Slice(ips, i, i + CHUNK_SIZE);
    assert ChunksFrom(ips, i) == [chunk] + ChunksFrom(ips, i + CHUNK_SIZE);
    assert done + ([chunk] + ChunksFrom(ips, i + CHUNK_SIZE)) == (done + [chunk]) + ChunksFrom(ips, i + CHUNK_SIZE);
    FetchStep(done, chunk, whois);
    FetchStopsAtFailure(done + [chunk], ChunksFrom(ips, i + CHUNK_SIZE), whois);
  }

  /** A successful whois call on the chunk at offset `i` moves that chunk to the fetched ones. */
  lemma FetchTurn(ips: seq<string>, done: seq<seq<string>>, fetched: seq<WhoisResponse>, i: nat, whois: Whois)
    requires i < |ips| && Chunks(ips) == done + ChunksFrom(ips, i)
    requires Fetch(done, whois) == Ok(fetched)
    requires whois(Slice(ips, i, i + CHUNK_SIZE)).Ok?
    ensures Chunks(ips) == (done + [Slice(ips, i, i + CHUNK_SIZE)]) + ChunksFrom(ips, i + CHUNK_SIZE)
    ensures Fetch(done + [Slice(ips, i, i + CHUNK_SIZE)], whois) ==
      Ok(fetched + [whois(Slice(ips, i, i + CHUNK_SIZE)).body])
  {
    var chunk := Slice(ips, i, i + CHUNK_SIZE);
    assert ChunksFrom(ips, i) == [chunk] + ChunksFrom(ips, i + CHUNK_SIZE);
    assert done + ([chunk] + ChunksFrom(ips, i + CHUNK_SIZE)) == (done + [chunk]) + ChunksFrom(ips, i + CHUNK_SIZE);
    FetchStep(done, chunk, whois);
  }

  /** The chunk loop of `filter_by_location`: one whois call per chunk, each
      response's `results` merged into the accumulator. */
  method MergeChunks(termIps: seq<string>, whois: Whois) returns (r: Reply<Entries<Info>>)
    ensures r == Aggregate(termIps, whois)
  {
    var aggregated: Entries<Info> := [];
    ghost var done: seq<seq<string>> := [];
    ghost var fetched: seq<WhoisResponse> := [];
    var i: nat := 0;
    while i < |termIps|
      invariant Chunks(termIps) == done + ChunksFrom(termIps, i)
      invariant Fetch(done, whois) == Ok(fetched)
      invariant aggregated == MergeAll([], fetched)
      decreases |termIps| - i
    {
      var chunk := Slice(termIps, i, i + CHUNK_SIZE);
      var reply := whois(chunk);
      if reply.HttpError? {
        AggregateFailsAt(termIps, done, fetched, i, whois);
        return HttpError(reply.status);
      }
      var response := reply.body;
      FetchTurn(termIps, done, fetched, i, whois);
      MergeStep(fetched, response);
      if response.results.Some? {
        aggregated := Update(aggregated, response.results.value);
      }
      done, fetched := done + [chunk], fetched + [response];
      i := i + CHUNK_SIZE;
    }
    assert done == Chunks(termIps);
    r := Ok(aggregated);
  }

  /** The output loop of `filter_by_location`. */
  method MatchCountry(aggregated: Entries<Info>, countryCode: string) returns (matching: seq<Location>)
    ensures matching == Matching(aggregated, countryCode)
  {
    matching := [];
    var k := 0;
    while k < |aggregated|
      invariant 0 <= k <= |aggregated|
      invariant matching == Matching(aggregated[..k], countryCode)
    {
      var (ip, info) := aggregated[k];
      if Matches(info, countryCode) {
        matching := matching + [LocationOf(ip, info)];
      }
      assert aggregated[..k + 1][..k] == aggregated[..k];
      k := k + 1;
    }
    assert aggregated[..k] == aggregated;
  }

  /** `filter_by_location` from the search response on: the frequency-filtered
      `lastip` values, looked up chunk by chunk, filtered by country code; a
      failed whois call fails the whole operation. */
  method FilterByLocation(search: SearchResponse, whois: Whois, countryCode: string)
    returns (r: Reply<seq<Location>>)
    requires search.results.Some?
    ensures r == Report(FrequencyFilter(Items(search.results.value, LAST_IP)), whois, countryCode)
  {
    var termIps := StringSearch(search, LAST_IP);
    var aggregated := MergeChunks(termIps, whois);
    if aggregated.HttpError? {
      return HttpError(aggregated.status);
    }
    var matching := MatchCountry(aggregated.body, countryCode);
    r := Ok(matching);
  }
}
