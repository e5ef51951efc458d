# certbot-dns-active24 in Dafny

certbot-dns-active24 is a Certbot DNS authenticator for the Active24
provider. To answer an ACME dns-01 challenge it publishes a TXT record
through the provider's HTTP API. It then waits until the new record is
visible at the domain's authoritative name servers, and deletes the record
afterwards. The repository holds two variants of the plugin:

- The current one (`src/certbot_dns_active24/dns_active24.py`) uses the
  REST API v2. It finds the authoritative servers itself by walking the
  delegation chain one label at a time, queries each of them for the TXT
  record, and waits until all challenges have propagated or a deadline
  passes.
- The older one (`certbot_dns_active24/dns_active24.py`) uses the
  token-authenticated API. It asks a list of servers for the TXT record
  again and again. A server leaves the list the first time its answer
  section is non-empty and is not asked again. The loop ends when the list
  is empty.

The model replaces every network call with an oracle the caller supplies:

- `dns.query.udp` becomes `UdpOracle`.
- The system resolver's address lookup becomes `ResolveOracle`.
- `requests.request` becomes `Transport`.
- `time()` becomes a sequence of clock readings. Python's float seconds are modelled as integers.

Each oracle returns `None` when the library call raises. With the oracles
in place, the plugin's own decision logic is modelled and proved. That
logic covers domain splitting, the delegation walk, the propagation
predicates, the wait loops, the first-match lookups, request construction
and error handling.

Modules, in dependency order:

- `Wrappers`: `Option`, `Result`, `Outcome`.
- `Text`: Python's `str.split`, `str.join` and `str.strip` on one character, with their round-trip lemmas.
- `Lookup`: a generic first-match search and the subsequence relation.
- `Domain`: `_parse_domain`, which both variants share.
- `Dns`: replies, records, queries, the DNS oracles and the errors.
- `Delegation`: `_resolve_authoritative_nameservers`. It has reference functions, an imperative method proved equal to them, and lemmas about query order, errors and last-record-wins.
- `Propagation`: `_has_propagated`, `_all_challenges_propagated` and the `perform` method with its deadline loop.
- `ApiV2`: `_find_service` and `_find_record`.
- `ApiV1`: the older client. It covers token normalisation, the base URL, `_send_request` with `raise_for_status`, `add_txt_record`, `_find_hash_id`, `del_txt_record` and the `_wait_for_propagation` method.

### Behaviour of the code worth knowing

- `_has_propagated` (src:259-262) returns false as soon as any TXT record of an answer, quotes stripped, differs from the challenge. It does not look for a matching record, so:
  - a NOERROR reply with an empty answer section confirms any challenge (`Propagation.EmptyAnswerConfirms`);
  - an empty authoritative server list counts as propagated (`Propagation.NoServersIsPropagated`).
- `perform` (src:52-81) has no cancellation and reports nothing about propagation. It waits at most until the deadline and then returns the challenge responses, whether or not propagation was seen.
- The walk does not collect the NS targets of a delegation. It overwrites `ns` for every A and NS record and `result` for every NS record, so the last one seen wins (`Delegation.LastRecordWins`).
- An NXDOMAIN reply during the walk raises (src:278-282). `_all_challenges_propagated` turns any exception into `False` with a bare `except:` (src:243-244). The model keeps the two steps apart.
- The docstrings of both `del_txt_record` versions say that the record's name and content both pick the record to delete. The older version's `_find_hash_id` matches on the name alone (old:149-151, `ApiV1.DeleteIgnoresContent`).

## Model

Source paths: `src:` is `src/certbot_dns_active24/dns_active24.py`, and
`old:` is `certbot_dns_active24/dns_active24.py`. Each row cites the full
path.

| member | source | states |
|---|---|---|
| Domain.ParseDomain | src/certbot_dns_active24/dns_active24.py:201-209 | The base zone's labels are the last two labels of the name, and the base never has more than two labels. With at least three labels, the record part holds the other labels and `record + "." + base` gives the name back. With two or fewer labels, the record is empty and the base is the whole name. |
| Domain.RecordInTwoLabelZone | certbot_dns_active24/dns_active24.py:155-163 | For any record part in front of a two-label zone whose labels contain no dot, the split returns exactly (zone, record part), even when the record part has dots of its own. |
| Domain.ParseChallengeNames | certbot_dns_active24/dns_active24_test.py:75-82 | `_acme-challenge.example.com` and `_acme-challenge.subdomain.example.com` both split at the zone `example.com`. |
| Text.Split | src/certbot_dns_active24/dns_active24.py:269 | Like Python's `str.split` with a separator: it yields at least one piece, and no piece contains the separator. |
| Text.JoinSplit | src/certbot_dns_active24/dns_active24.py:273 | Joining the pieces of a split gives the string back. |
| Text.SplitJoin | src/certbot_dns_active24/dns_active24.py:273 | Splitting a join of separator-free pieces gives the pieces back. |
| Text.Strip | src/certbot_dns_active24/dns_active24.py:261 | `strip('"')` removes the quote characters at both ends and nothing else. The result is a slice of the input that neither starts nor ends with a quote. |
| Text.StripQuoted | src/certbot_dns_active24/dns_active24.py:261 | A value that is not itself quoted comes back unchanged after it is wrapped in quotes and stripped. |
| Lookup.FirstMatch | src/certbot_dns_active24/dns_active24.py:182-186 | It returns the index of the first element that satisfies the predicate, or none exactly when no element does. |
| Lookup.SubsequenceTransitive | certbot_dns_active24/dns_active24.py:71-72 | Filtering a filtered list still yields a subsequence of the original list. |
| Lookup.SubsequenceMembers | certbot_dns_active24/dns_active24.py:72 | Every element of a subsequence is an element of the original list. |
| Delegation.ChosenRrsets | src/certbot_dns_active24/dns_active24.py:284-289 | The records read are those of the authority section when it is non-empty, else those of the additional section, else those of the answer section. The additional section is read as a single rrset. |
| Delegation.VisitRecord | src/certbot_dns_active24/dns_active24.py:293-297 | One inner-loop turn fails exactly for an NS record whose target cannot be resolved, naming that target. Otherwise `ns` becomes the address the record contributes (an A record's address, an NS target's resolved address) or stays as it was. `result` becomes the current rrset exactly for an NS record. |
| Delegation.StepOutcome | src/certbot_dns_active24/dns_active24.py:274-282 | A raised query gives a query failure naming the query and the server. An NXDOMAIN reply gives "`sub` does not exist", and only such a reply does. Any other rcode except NOERROR gives an error that carries that rcode. A NOERROR reply updates the state from the chosen sections. |
| Delegation.ApplyErrors | src/certbot_dns_active24/dns_active24.py:291-297 | The record loops can fail only through a failed address lookup. |
| Delegation.ResolveAuthoritativeNameservers | src/certbot_dns_active24/dns_active24.py:266-299 | The method, with its nested loops and mutable `ns` and `result`, returns exactly what the reference walk `AuthoritativeNameservers` returns or raises. |
| Delegation.ReadRrsets | src/certbot_dns_active24/dns_active24.py:291-297 | The two nested loops over rrsets and records compute the fold `Apply` over the visited records, in order. |
| Delegation.ReadRecords | src/certbot_dns_active24/dns_active24.py:292-297 | The inner loop over one rrset's records computes the fold `Apply` over those records, each paired with the rrset. |
| Delegation.Addresses | src/certbot_dns_active24/dns_active24.py:299 | It returns one address per record of `result`, namely the resolver's address for that record's text. It fails exactly when some lookup fails. |
| Delegation.TraceFrom | src/certbot_dns_active24/dns_active24.py:272-275 | The walk sends at most one query per remaining label, and the first query goes out from the starting state. |
| Delegation.TraceLength | src/certbot_dns_active24/dns_active24.py:272 | A walk without error sends exactly one query per label. |
| Delegation.TraceLink | src/certbot_dns_active24/dns_active24.py:272-297 | Each query is sent from the state that the previous query's reply produced. |
| Delegation.TraceLast | src/certbot_dns_active24/dns_active24.py:276-282 | The walk ends with the outcome of the last query it sent. On an error, no later suffix is queried. |
| Delegation.SuffixLabels | src/certbot_dns_active24/dns_active24.py:272-273 | At loop index `i` the query names the last `len(parts) - i + 1` labels, and at `i == 1` it names the whole domain. |
| Delegation.QueriesDescend | src/certbot_dns_active24/dns_active24.py:267-275 | The walk starts in its initial state, where `ns` is the system resolver's first server. It sends between one query and one query per label. Its k-th query (counting from 0) splits into exactly the last k+1 labels of the domain. This holds for every step function, including the source's. |
| Delegation.QueriesChain | src/certbot_dns_active24/dns_active24.py:272-297 | Every query except the last succeeds and leads to the state that the next query is sent from. |
| Delegation.WalkOutcome | src/certbot_dns_active24/dns_active24.py:272-282 | A walk without error sends one query per label, and its last query names the whole domain. The walk's outcome is the outcome of its last query, so after an error no later suffix is queried. |
| Delegation.ApplyAppend | src/certbot_dns_active24/dns_active24.py:291-292 | Running the loops over two runs of records in a row equals running them over the concatenation, and the first failure stops everything. |
| Delegation.LastRecordWins | src/certbot_dns_active24/dns_active24.py:291-297 | After the loops, `ns` is the address contributed by the last A or NS record visited, and `result` is the rrset of the last NS record visited. Each keeps its old value when no such record exists. Both are checked against reference functions that scan from the end. |
| Delegation.ApplyFailsIffUnresolvable | src/certbot_dns_active24/dns_active24.py:295-296 | The loops fail exactly when some visited NS record's target cannot be resolved. |
| Delegation.QuietVisitsKeepState | src/certbot_dns_active24/dns_active24.py:293-297 | Records that are neither A nor NS change nothing. |
| Delegation.PairsShape | src/certbot_dns_active24/dns_active24.py:291-292 | The inner loop visits the records of one rrset in order, each paired with that rrset. |
| Delegation.VisitsFromRrsets | src/certbot_dns_active24/dns_active24.py:291-292 | Every visited record comes from the chosen sections. It is paired with one of the chosen rrsets, and that rrset holds the record. |
| Delegation.QuietReplyKeepsState | src/certbot_dns_active24/dns_active24.py:284-297 | A reply whose chosen sections hold no A and no NS record leaves `ns` and `result` unchanged. |
| Delegation.OnlyChosenSectionsMatter | src/certbot_dns_active24/dns_active24.py:284-289 | Authority wins over additional, and additional wins over answer. Two replies that agree on the section the rule picks lead to the same state. |
| Delegation.LastNsInPairs | src/certbot_dns_active24/dns_active24.py:295-297 | When an rrset holds an NS record, looping over it leaves that rrset as the last NS rrset. |
| Delegation.AdditionalSectionIsOneRrset | src/certbot_dns_active24/dns_active24.py:286-287 | With an empty authority section, the additional section is read as one rrset, so an NS record anywhere in it makes the whole section `result`. |
| Delegation.ReplyWithoutNsKeepsResult | src/certbot_dns_active24/dns_active24.py:284-297 | A reply whose chosen sections hold no NS record leaves `result` as it was. |
| Delegation.WalkKeepsResult | src/certbot_dns_active24/dns_active24.py:272-297 | If no turn of the outer loop changes `result`, a successful walk ends with the `result` it started with. |
| Delegation.NoNsRecordMeansNoServers | src/certbot_dns_active24/dns_active24.py:270-299 | If no server's reply holds an NS record in the sections the walk reads, `result` stays the empty list, so whenever the function returns it returns the empty list. |
| Propagation.AnswerMatches | src/certbot_dns_active24/dns_active24.py:259-262 | True exactly when every TXT record of every answer rrset, quotes stripped, equals the challenge. Other record types are ignored. |
| Propagation.RrsetMatchesAll | src/certbot_dns_active24/dns_active24.py:260-262 | The inner record loop accepts an rrset exactly when all its TXT records match. |
| Propagation.ServersConfirm | src/certbot_dns_active24/dns_active24.py:252-264 | True exactly when every server confirms, meaning it replies NOERROR with no mismatching TXT record. False names the first server that replied without confirming. A failure names the first server whose query raised. |
| Propagation.HasPropagated | src/certbot_dns_active24/dns_active24.py:248-264 | True exactly when the resolution succeeds and every authoritative server confirms. A failed resolution is raised. |
| Propagation.AllChallengesPropagated | src/certbot_dns_active24/dns_active24.py:237-246 | True exactly when each challenge's check returns true. A false result or a raised exception for any challenge makes it false. |
| Propagation.NoServersIsPropagated | src/certbot_dns_active24/dns_active24.py:252-264 | An empty authoritative server list counts as propagated. |
| Propagation.EmptyAnswerConfirms | src/certbot_dns_active24/dns_active24.py:256-264 | A NOERROR reply with an empty answer section confirms any challenge. |
| Propagation.QuotedChallengeConfirms | src/certbot_dns_active24/dns_active24.py:261 | A TXT record whose text is the challenge in quotes confirms it. |
| Propagation.Deadline | src/certbot_dns_active24/dns_active24.py:67-74 | The deadline lies strictly after the reading it is computed from: `propagation-seconds` later when that value is positive, and 3600 seconds later otherwise. |
| Propagation.PublishAll | src/certbot_dns_active24/dns_active24.py:58-65 | It fails exactly when some challenge's publication raises, with the first such error. Otherwise it returns one response per challenge, in input order. |
| Propagation.AwaitPropagation | src/certbot_dns_active24/dns_active24.py:76-79 | The loop ends at the first clock reading that is at or past `wait_until` or after which the propagation check is true. At every earlier reading, the clock was before `wait_until` and the check was false. |
| Propagation.Perform | src/certbot_dns_active24/dns_active24.py:52-81 | It fails exactly when some challenge's publication raises, with the first such error. Otherwise it returns one response per challenge, in input order. The wait ends at the first clock reading that is at or past the deadline or at which all challenges have propagated. At every earlier reading, the clock was before the deadline and not all challenges had propagated. |
| ApiV2.FindService | src/certbot_dns_active24/dns_active24.py:178-186 | It returns the id of the first service that is a `domain` service with the given name. It returns none exactly when no service qualifies. |
| ApiV2.FindRecord | src/certbot_dns_active24/dns_active24.py:188-199 | It returns the first record that is TXT and has the given name and content. It returns none exactly when no record qualifies. |
| ApiV1.TokenTextKept | certbot_dns_active24/dns_active24.py:89 | A string token is kept as it is. |
| ApiV1.TokenListRoundTrip | certbot_dns_active24/dns_active24.py:89 | A list token is joined with commas, and splitting the joined token at the commas gives the list back. |
| ApiV1.NewClient | certbot_dns_active24/dns_active24.py:88-90 | A new client holds the normalised token and has `test` off. |
| ApiV1.BaseUrl | certbot_dns_active24/dns_active24.py:166 | The sandbox URL is used exactly when `test` is set, and the production URL exactly when it is not. |
| ApiV1.SendRequest | certbot_dns_active24/dns_active24.py:165-176 | It returns the response exactly when the call does not raise and the status is not 4xx or 5xx. A 4xx or 5xx status becomes an HTTP error that carries the status. |
| ApiV1.AddTxtRequestTargetsZone | certbot_dns_active24/dns_active24.py:100-108 | For a name under a two-label zone, the request is a POST to `/dns/<zone>/txt/v1` with the bearer token, the part before the zone as `name`, the content as `text` and a `ttl` of 300. |
| ApiV1.AddTxtRecord | certbot_dns_active24/dns_active24.py:92-117 | It succeeds exactly when the POST returns status 204. A raised request or a 4xx/5xx status becomes a communication PluginError. Any other status becomes an unexpected-status PluginError. |
| ApiV1.HashIdIn | certbot_dns_active24/dns_active24.py:149-151 | It returns the hashId of the first record with the given name, or none exactly when no record has that name. |
| ApiV1.FindHashId | certbot_dns_active24/dns_active24.py:145-153 | A failed listing request is passed on with the listing's own error. A successful listing without the name raises RecordNotFound, and only such a listing does. Otherwise the result is the first match's hashId. |
| ApiV1.DeleteRecord | certbot_dns_active24/dns_active24.py:129-143 | It raises (`Missing`) exactly when the listing succeeds but holds no record of that name. A failed listing is only logged, as a request warning. It deletes exactly when the lookup finds a hashId and the DELETE of that hashId returns 204. Every other failure is only logged. |
| ApiV1.DeleteFoundRecord | certbot_dns_active24/dns_active24.py:119-143 | A listing that holds the record and a DELETE of its hashId that returns 204 make `del_txt_record` succeed. |
| ApiV1.DeleteIgnoresContent | certbot_dns_active24/dns_active24.py:129-134 | The record to delete is chosen by name alone, so the content argument never changes the outcome. |
| ApiV1.DeleteChallengeRecord | certbot_dns_active24/dns_active24_test.py:88-100 | If the listing holds the record with hashId `asdfqwert` and its DELETE returns 204, the record is deleted, also for a record under a subdomain. |
| ApiV1.DelTxtRecord | certbot_dns_active24/dns_active24.py:119-143 | After splitting the name at its zone, it raises `Missing` exactly when the listing succeeds without a record of that name. A failed listing is only logged. It deletes exactly when the lookup finds a hashId and the DELETE of that hashId returns 204. |
| ApiV1.StillEmpty | certbot_dns_active24/dns_active24.py:72 | One filtering pass keeps a subsequence of the servers, in order. A server is kept exactly when its TXT answer section is empty, and it is kept as many times as it occurs in the list. The pass raises exactly when some query raises. |
| ApiV1.FilterStep | certbot_dns_active24/dns_active24.py:72 | Keeping or dropping the first server extends a filtered tail to a filtered list, preserving order and occurrence counts. |
| ApiV1.WaitForPropagation | certbot_dns_active24/dns_active24.py:67-73 | On a normal exit the remaining list is empty or the pass bound is used up. The list is a subsequence of the initial one. A server remains exactly when it answered empty in every pass so far, and then as many times as it occurs in the initial list. A raised query comes from one of the initial servers. |

## Left out

- Network I/O: DNS queries, resolver lookups and HTTP requests are oracles the caller supplies. Timeouts and other exceptions of those calls appear only as `None`.
- The HMAC-SHA1 request signing, the `Date` header and the `time()` call inside the v2 `_send_request` (src:211-234) are not modelled, because they are cryptography and clock reads. The v2 base URL is constant.
- The v2 client's `add_txt_record` and `del_txt_record` request flows (src:113-176) are not modelled. Only the lookups `_find_service` and `_find_record` that they call are modelled.
- `sleep(5)` and `sleep(1)` are not modelled. Time is the sequence of clock readings `clock(k)`. Reading 0 is the one the deadline is computed from. Reading 1 is the first loop test, and it follows reading 0 with no sleep in between.
- Propagation.AwaitPropagation, Propagation.Perform: both require the readings from the first loop test on to increase strictly, since `sleep(5)` separates them. This is an assumption, not something the source guarantees: `time()` is the wall clock and can be set back. Without it the loop need not end, and the model proves only terminating runs.
- Propagation.Perform: a `net(k)` oracle gives one DNS view per clock reading, not one per query. Asking every server twice in the same reading gives the same reply.
- Propagation.AllChallengesPropagated: the early `return False` cannot be observed with pure oracles, because the remaining checks have no effect. The result is the same.
- ApiV1.WaitForPropagation: the source loops without bound. The model's `fuel` bounds the number of passes, so a server that never answers ends the method when the fuel runs out instead of making it loop forever.
- ApiV1.WaitForPropagation: `_get_nameservers` (old:76-80) is not modelled. The initial server list is a parameter.
- The older `_perform` and `_cleanup` (old:56-61) are not modelled, because they only wire `add_txt_record` and `_wait_for_propagation` to the host framework. The same holds for the src `_perform`, `_cleanup` and `_get_active24_client`.
- Delegation.ChosenRrsets: `[response.additional]` is modelled as one rrset holding all records of the additional section. In the source the inner loop then meets whole rrsets, not records, and the model loses three behaviours of that path:
  - an A rrset sets `ns` to its first address, so `ns` ends as the first address of the last A rrset, whereas the model takes the last A record;
  - an NS rrset is resolved by the text of the whole rrset, not by one target;
  - `result` becomes the list of additional rrsets itself.
- Delegation.VisitRecord: for an A record, `rr.items[0].address` is modelled as the record's only address. This holds only on the additional-section path, where `rr` is a whole rrset. In the authority and answer sections `rr` is a single record, which has no `items`, so the source raises there instead of updating `ns`. The model updates `ns`.
- `response.json()` decoding, missing JSON keys (`KeyError`) and `'%d' % service` applied to a missing service in the v2 `del_txt_record` are not modelled. Payloads are lists of typed records.
- The host-framework surface (argument parsing, `more_info`, credential setup, `display_util.notify`, logging) and `setup.py` are packaging and wiring only, so they are not modelled.
- Integer widths are not modelled. Statuses and ids are unbounded integers, as Python's integers are.
- Propagation.Deadline, Propagation.Perform: `time()` returns float seconds. The model uses integer readings and an integer `propagation-seconds`, so fractional seconds and float rounding are not modelled.
