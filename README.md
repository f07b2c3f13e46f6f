# snusbase-wrapper: the response-processing core, modelled in Dafny

`src/api_wrappers.py` is a thin client for the Snusbase breach-search API.
Around its HTTP calls sit three pieces of pure data handling, which this
project models and proves things about:

* `parse_data` collects every non-empty `email` from the records of a search
  response and returns them without duplicates (`emails.dfy`, module `Emails`).
* `string_search`, after its `search` call, collects the values of one field
  from every record, counts them with a `Counter`, and keeps each value seen at
  most 20 times, in first-occurrence order (`frequency.dfy`, module `Frequency`).
* `filter_by_location`, after its `string_search(..., "lastip")` call, looks the
  addresses up with `whois` in chunks of 100, merges the `results` maps of the
  responses in order, and reports `ip`, `country` and `city` for every address
  whose `countryCode` is the one asked for. A missing country or city is
  reported as `"Unknown"` (`location.dfy`, module `Location`).

Supporting modules:

* `Envelope`: the decoded search response, a map from breach name to a list of
  records, modelled as an ordered list of groups. It also holds the field
  collection `Items` that both `parse_data` and `string_search` walk.
* `OrderedDict`: Python's insertion-ordered `dict`, modelled as an association
  list with lookup, `__setitem__` (`Put`) and `update`.
* `Chunking`: `range(0, len, 100)` with Python's clamping slices.
* `Sequences`: duplicate freedom, first-occurrence order and `Counter`'s key
  order.
* `Wrappers`: `Option`.

Each loop in the source is a `method` with a loop, proved against a
specification function:
* `ParseData` and `StringSearch` are proved against `Items`;
* `MergeChunks` is proved against `Fetch`/`MergeAll`;
* `MatchCountry` is proved against `Matching`.

Lemmas then state what those functions mean:
* a value is reported iff some record holds it;
* the merge keeps the last response's entry for each address, and a reported
  address carries that response's `country` and `city`;
* when no two responses mention the same address, the output lists matches
  chunk by chunk, in each response's order;
* the whole run fails iff some whois call fails, and then with the first
  failure's status;
* the chunks are at most 100 long and concatenate back to the input.

The `search` and `whois` network calls are inputs:
* `StringSearch` and `FilterByLocation` take the decoded search response;
* `FilterByLocation` takes `whois` as a function from an address chunk to a
  `Reply`. The reply is either the decoded body (status 200) or the HTTP error
  raised by `raise_for_status`.

## Model

| member | source | states |
|---|---|---|
| Emails.ParseData | src/api_wrappers.py:25-33 | the result has no duplicates and holds exactly the non-empty `email` values of the records; a response without `results` gives `[]` |
| Emails.ListOfSet | src/api_wrappers.py:33 | `list(set(data))`: a duplicate-free list with exactly the set's elements, in no promised order |
| Emails.TruthyMembership | src/api_wrappers.py:29-31 | the `if email:` filter keeps exactly the non-empty strings of the input |
| Emails.TruthyStep | src/api_wrappers.py:29-31 | one more record adds its email to the kept list iff it has a non-empty one |
| Envelope.ItemsMembership | src/api_wrappers.py:91-94 | a value is collected iff some record of some group holds it under the field |
| Envelope.FieldValuesMembership | src/api_wrappers.py:92-94 | a value is collected from one group's records iff one of them holds it under the field |
| Envelope.FieldOccursSnoc | src/api_wrappers.py:91-94 | a value occurs under the field in the groups plus one more iff it occurs in the first ones or in the new group's records |
| Envelope.FieldValuesConcat | src/api_wrappers.py:92-94 | collecting over two runs of records gives the two collections in order |
| Envelope.ItemsConcat | src/api_wrappers.py:91-94 | collecting over two runs of groups gives the two collections in order |
| Envelope.RecordContribution | src/api_wrappers.py:93-94 | a record adds its field's value iff `data in record` |
| Envelope.FieldValuesStep | src/api_wrappers.py:92-94 | one more record appends its value when it has the field, and nothing otherwise |
| Envelope.ItemsStep | src/api_wrappers.py:91-94 | one more group appends that group's collected values |
| Frequency.StringSearch | src/api_wrappers.py:90-99 | the result is the filtered tally of the collected values: a value is returned iff some record holds it and it occurs at most 20 times; no duplicates; first-occurrence order; no occurrences gives `[]` |
| Frequency.FilteredFieldValues | src/api_wrappers.py:90-97 | a value survives the filter iff some record holds it and it is collected at most 20 times; no occurrence at all gives `[]` |
| Frequency.Tally | src/api_wrappers.py:96 | `Counter(items)` has each collected value as a key exactly once, in first-occurrence order |
| Frequency.RareKeys | src/api_wrappers.py:97 | the comprehension keeps exactly the keys whose count is at most 20 |
| Frequency.RareKeysKeepOrder | src/api_wrappers.py:97 | the comprehension keeps the counter's key order and duplicate freedom |
| Frequency.EarlierKeysFirstOccurEarlier | src/api_wrappers.py:96-97 | an earlier counter key first occurs earlier in the items than the last key |
| Frequency.FrequencyFilter | src/api_wrappers.py:96-97 | no duplicates; a value is kept iff it occurs and at most 20 times; kept values appear in first-occurrence order |
| Frequency.FilterKeepsTwo | src/api_wrappers.py:96-97 | when only two values are rare, the filter returns those two in the order they first appear |
| Frequency.ThresholdIsInclusive | src/api_wrappers.py:97 | a value seen 20 times or fewer (including exactly once) is kept and one seen more than 20 times is dropped |
| Sequences.Distinct | src/api_wrappers.py:96 | the distinct values of a list: no duplicates and the same elements |
| Sequences.DistinctKeepsFirstOccurrenceOrder | src/api_wrappers.py:96 | the distinct values come in the order of their first occurrence, as `Counter` keys do |
| Sequences.FirstIndex | src/api_wrappers.py:96 | the position of a value's first occurrence |
| Sequences.AppendKeepsFirstOccurrenceOrder | src/api_wrappers.py:96-97 | appending a value that first occurs after all the others keeps first-occurrence order |
| Sequences.DropLastKeepsFirstOccurrenceOrder | src/api_wrappers.py:96-97 | dropping the last value keeps first-occurrence order and duplicate freedom |
| Sequences.FirstIndexOfPrefix | src/api_wrappers.py:96 | a value's first occurrence does not move when values are appended |
| Sequences.FirstIndexAfterPrefix | src/api_wrappers.py:96 | a new value appended first occurs at the end |
| Chunking.Slice | src/api_wrappers.py:116 | `term_ips[i:i+100]` is the plain slice inside the list, the rest of the list when the end runs past it (the last, partial chunk), and empty from the end of the list on |
| Chunking.ChunksFromShape | src/api_wrappers.py:115-116 | the chunks from an offset: ceil(rest/100) of them, each of 1 to 100 addresses, all but the last full, and concatenated they give the rest of the list |
| Chunking.ChunksShape | src/api_wrappers.py:115-116 | ceil(n/100) chunks, each of 1 to 100 addresses, all but the last exactly 100, concatenating back to the list; no chunks iff no addresses |
| OrderedDict.Lookup | src/api_wrappers.py:125-126 | a key has a value iff it is a key of the dict, and the value is one stored with that key |
| OrderedDict.LookupAt | src/api_wrappers.py:125-126 | with distinct keys, reading a pair's key gives that pair's value |
| OrderedDict.KeysConcat | src/api_wrappers.py:120 | the keys of two entry runs laid end to end are the union of their keys |
| OrderedDict.KeysAt | src/api_wrappers.py:125 | a key is a dict key iff some entry carries it |
| OrderedDict.Put | src/api_wrappers.py:120 | assignment adds the key, maps it to the new value and leaves every other key's value; a new key goes to the end, an old one keeps its position |
| OrderedDict.PutKeepsKeysUnique | src/api_wrappers.py:120 | assignment keeps keys unique |
| OrderedDict.Update | src/api_wrappers.py:120 | `dict.update`: the union of the keys, the other dict's value where it has the key and the old value elsewhere; existing keys keep their positions |
| OrderedDict.UpdateAppendsNewKeys | src/api_wrappers.py:120 | `update` with keys all new to the dict appends the other dict's pairs in its order |
| OrderedDict.UpdateKeepsKeysUnique | src/api_wrappers.py:120 | `update` keeps keys unique |
| OrderedDict.UpdateIntoEmpty | src/api_wrappers.py:113-120 | updating the empty aggregate with a dict gives that dict |
| Location.FetchStopsAtFailure | src/api_wrappers.py:115-117 | once a whois call has raised, the later chunks change nothing |
| Location.FetchOutcome | src/api_wrappers.py:115-117 | the calls all succeed iff every chunk's call succeeds, and then each response belongs to its chunk; otherwise the error is the first failing chunk's |
| Location.FetchStep | src/api_wrappers.py:115-117 | one more chunk either raises its call's error or appends its response |
| Location.MergeStep | src/api_wrappers.py:119-120 | one more response is merged into the current aggregate |
| Location.MergeAllKeys | src/api_wrappers.py:119-120 | an address is in the merged results iff it was already there or some response with `results` holds it |
| Location.MergeAllLastWins | src/api_wrappers.py:119-120 | an address keeps the info of the last response that holds it |
| Location.MergeAllUntouched | src/api_wrappers.py:119-120 | an address no response holds keeps its earlier info |
| Location.MergeAllKeepsKeysUnique | src/api_wrappers.py:119-120 | merging keeps addresses unique |
| Location.MergeIgnoresResponsesWithoutResults | src/api_wrappers.py:119 | responses without `results` contribute nothing |
| Location.MatchingMembership | src/api_wrappers.py:124-132 | a location is reported iff some entry has its address and the asked country code, and it carries that entry's `country` and `city` or `"Unknown"` |
| Location.MatchingConcat | src/api_wrappers.py:125-132 | the report over two runs of entries is the two reports in order |
| Location.MatchingIpsAreKeys | src/api_wrappers.py:125-128 | every reported address is an address of the merged results |
| Location.MatchingIpsDistinct | src/api_wrappers.py:125-132 | with unique addresses in the merged results, no address is reported twice |
| Location.MatchingByLookup | src/api_wrappers.py:125-132 | on a map with distinct addresses, an address is reported iff it is a key whose info has the asked code, and it carries that info's `country` and `city` |
| Location.ReportedFromLastResponse | src/api_wrappers.py:119-132 | an address is reported iff the last whois response mentioning it gives it the asked code, and then with that response's `country` and `city` |
| Location.AllResultsKeys | src/api_wrappers.py:119-120 | the addresses of all results laid end to end are those some response mentions |
| Location.MergeAllAppends | src/api_wrappers.py:113-120 | when no address is mentioned by two responses, the merged map is every response's results appended in chunk order |
| Location.MatchingAllResults | src/api_wrappers.py:124-132 | matching over the appended results is each response's matches in response order |
| Location.ReportFollowsResponseOrder | src/api_wrappers.py:113-134 | with disjoint responses the output lists matches chunk by chunk, and within a chunk in its response's order |
| Location.OneChunk | src/api_wrappers.py:115-116 | 1 to 100 addresses make one chunk |
| Location.FetchOne | src/api_wrappers.py:115-117 | one chunk whose call succeeds yields its one response |
| Location.MergeOne | src/api_wrappers.py:113-120 | one response with `results` merged into the empty aggregate gives those results |
| Location.ReportExample | src/api_wrappers.py:112-134 | two addresses, one in the US and one not: only the US one is reported, with its country and city |
| Location.AggregateFailsAt | src/api_wrappers.py:115-117 | a failing call on the current chunk ends the run with its status |
| Location.FetchTurn | src/api_wrappers.py:115-117 | a succeeding call on the current chunk moves that chunk and its response to the done ones |
| Location.MergeChunks | src/api_wrappers.py:112-120 | the chunk loop returns the merged results of all responses, or the first raised error |
| Location.MatchCountry | src/api_wrappers.py:124-134 | the output loop returns the matching report of the merged results |
| Location.FilterByLocation | src/api_wrappers.py:109-134 | the filtered `lastip` values of the search are looked up, merged and matched; the result is the report or the first whois error |

## Left out

- `search`, `whois` and `send_request`: the HTTP requests, the headers, the API key from `config` and the JSON payloads are not modelled. The decoded search response is an input, and `whois` is a function from a chunk to either the decoded body or the HTTP status that `raise_for_status` raises.
- `send_request` returns `None` for a non-200 status that `raise_for_status` accepts, such as 204; `filter_by_location` would then fail on `"results" in None`. `Reply` has no such case.
- A failure of the `search` call inside `string_search` and `filter_by_location` is not modelled, because the search response is an input.
- Frequency.StringSearch: requires the response to have `results`; the source indexes `response['results']` unguarded and raises `KeyError` otherwise.
- `save_response` writes a file under a random UUID; file I/O and randomness are not modelled.
- The `print` calls in `filter_by_location` are output only and are not modelled.
- JSON values are modelled as strings. Records whose `email`, field or `countryCode` values are numbers, lists or `null` are not modelled, and neither is Python truthiness for non-strings in `parse_data`.
- Emails.ListOfSet: promises no order, because the order of `list(set(...))` depends on string hashing.
- The `string_search` arguments `term` and `type` only feed `search` and are not part of the model.
