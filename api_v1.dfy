/** The older client of the Active24 API (token authentication): request
    construction and error handling of `add_txt_record` and
    `del_txt_record`, `_find_hash_id`, and the polling loop
    `_wait_for_propagation`. */
module ApiV1 {
  import opened Wrappers
  import opened Text
  import opened Lookup
  import opened Domain
  import opened Dns

  // ----- The client -----

  /** The configured token: a string, or a list of strings. */
  datatype Token = TokenText(text: string) | TokenList(items: seq<string>)

  /** The token normalisation of `_Active24Client.__init__`. */
  function NormaliseToken(token: Token): string
  {
    match token
    case TokenText(text) => text
    case TokenList(items) => Join(items, ',')
  }

  /** A string token is kept as it is. */
  lemma TokenTextKept(text: string)
    ensures NormaliseToken(TokenText(text)) == text
  {
  }

  /** A list token becomes its items joined with commas, so that splitting
      at the commas gives back the items. */
  lemma TokenListRoundTrip(items: seq<string>)
    requires |items| >= 1
    requires forall i :: 0 <= i < |items| ==> ',' !in items[i]
    ensures Split(NormaliseToken(TokenList(items)), ',') == items
  {
    SplitJoin(items, ',');
  }

  /** `_Active24Client`: its token and its `test` flag. */
  datatype Client = Client(token: string, test: bool)

  /** `_Active24Client(token)`. */
  function NewClient(token: Token): (c: Client)
    ensures !c.test && c.token == NormaliseToken(token)
  {
    Client(NormaliseToken(token), false)
  }

  const ProductionUrl: string := "https://api.active24.com"
  const SandboxUrl: string := "https://sandboxapi.active24.com"

  /** The base URL of `_send_request`: the sandbox exactly when `test` is set. */
  function BaseUrl(c: Client): (url: string)
    ensures url == SandboxUrl <==> c.test
    ensures url == ProductionUrl <==> !c.test
  {
    if c.test then SandboxUrl else ProductionUrl
  }

  // ----- Requests -----

  /** The JSON body of the record-creating request. */
  datatype TxtPayload = TxtPayload(name: string, text: string, ttl: nat)

  datatype HttpRequest = HttpRequest(verb: string, url: string, payload: Option<TxtPayload>, authorization: string)

  /** An entry of the JSON list returned by `GET /dns/<domain>/records/v1`. */
  datatype ApiRecord = ApiRecord(name: string, hashId: string)

  datatype HttpResponse = HttpResponse(status: nat, records: seq<ApiRecord>)

  /** `requests.request`; `None` when the call raises a RequestException
      (connection failure, timeout). */
  type Transport = HttpRequest -> Option<HttpResponse>

  /** The RequestExceptions `_send_request` lets through. */
  datatype RequestError = ConnectionError(url: string) | HttpError(status: nat)

  /** `response.raise_for_status()` raises for client and server errors. */
  predicate IsErrorStatus(status: nat)
  {
    400 <= status < 600
  }

  /** The request `_send_request` builds. */
  function RequestFor(c: Client, verb: string, endpoint: string, payload: Option<TxtPayload>): HttpRequest
  {
    HttpRequest(verb, BaseUrl(c) + endpoint, payload, "Bearer " + c.token)
  }

  /** `_send_request`: the response, unless the call raises or the status
      is a 4xx or 5xx one. */
  function SendRequest(request: HttpRequest, transport: Transport): (r: Result<HttpResponse, RequestError>)
    ensures var reply := transport(request);
      && (r.Success? <==> reply.Some? && !IsErrorStatus(reply.value.status))
      && (r.Success? ==> r.value == reply.value)
      && (r == Failure(HttpError(reply.value.status)) <== reply.Some? && IsErrorStatus(reply.value.status))
      && (r == Failure(ConnectionError(request.url)) <== reply.None?)
  {
    match transport(request)
    case None => Failure(ConnectionError(request.url))
    case Some(response) =>
      if IsErrorStatus(response.status) then Failure(HttpError(response.status)) else Success(response)
  }

  /** The PluginError `add_txt_record` raises, with what caused it. */
  datatype PluginError = CommunicationError(cause: RequestError) | UnexpectedStatus(status: nat)

  /** The request `add_txt_record` sends for `recordName`. */
  function AddTxtRequest(c: Client, recordName: string, content: string): HttpRequest
  {
    var (domain, record) := ParseDomain(recordName);
    RequestFor(c, "POST", "/dns/" + domain + "/txt/v1", Some(TxtPayload(record, content, 300)))
  }

  /** The POST for a name under a two-label zone goes to that zone's
      endpoint and names the record by everything in front of the zone
      (`_acme-challenge.subdomain` for `_acme-challenge.subdomain.example.com`),
      with a TTL of 300 seconds. */
  lemma AddTxtRequestTargetsZone(c: Client, record: string, zone: string, tld: string, content: string)
    requires '.' !in zone && '.' !in tld
    ensures AddTxtRequest(c, record + "." + zone + "." + tld, content)
         == HttpRequest("POST", BaseUrl(c) + "/dns/" + zone + "." + tld + "/txt/v1",
                        Some(TxtPayload(record, content, 300)), "Bearer " + c.token)
  {
    RecordInTwoLabelZone(record, zone, tld);
    assert "/dns/" + (zone + "." + tld) + "/txt/v1" == "/dns/" + zone + "." + tld + "/txt/v1";
  }

  /** `add_txt_record`: passes exactly when the POST returns status 204;
      a raised request or any other status is a PluginError. */
  function AddTxtRecord(c: Client, recordName: string, content: string, transport: Transport)
    : (r: Outcome<PluginError>)
    ensures var reply := transport(AddTxtRequest(c, recordName, content));
      && (r.Pass? <==> reply.Some? && reply.value.status == 204)
      && (r.Fail? && r.error.UnexpectedStatus? <==>
            reply.Some? && reply.value.status != 204 && !IsErrorStatus(reply.value.status))
      && (r.Fail? && r.error.CommunicationError? <==>
            reply.None? || IsErrorStatus(reply.value.status))
  {
    match SendRequest(AddTxtRequest(c, recordName, content), transport)
    case Failure(e) => Fail(CommunicationError(e))
    case Success(response) =>
      if response.status != 204 then Fail(UnexpectedStatus(response.status)) else Pass
  }

  // ----- Deleting -----

  /** What `_find_hash_id` raises: a RequestException from the listing, or
      the RuntimeError for a missing record. */
  datatype LookupError = ListingFailed(cause: RequestError) | RecordNotFound(recordName: string, domainName: string)

  predicate NamedRecord(r: ApiRecord, recordName: string)
  {
    r.name == recordName
  }

  /** The search loop of `_find_hash_id`: the hashId of the first record
      named `recordName`. */
  function HashIdIn(records: seq<ApiRecord>, recordName: string): (r: Option<string>)
    ensures r.None? <==> forall i :: 0 <= i < |records| ==> !NamedRecord(records[i], recordName)
    ensures r.Some? ==>
      exists i :: && 0 <= i < |records| && NamedRecord(records[i], recordName) && records[i].hashId == r.value
                  && forall j :: 0 <= j < i ==> !NamedRecord(records[j], recordName)
  {
    match FirstMatch(records, rec => NamedRecord(rec, recordName))
    case None => None
    case Some(i) => Some(records[i].hashId)
  }

  /** The request listing the records of the zone `domainName`. */
  function ListingRequest(c: Client, domainName: string): HttpRequest
  {
    RequestFor(c, "GET", "/dns/" + domainName + "/records/v1", None)
  }

  /** The request deleting the record `hashId` of the zone `domain`. */
  function DeleteRequest(c: Client, domain: string, hashId: string): HttpRequest
  {
    RequestFor(c, "DELETE", "/dns/" + domain + "/" + hashId + "/v1", None)
  }

  /** `_find_hash_id`. */
  function FindHashId(c: Client, domainName: string, recordName: string, transport: Transport)
    : (r: Result<string, LookupError>)
    ensures var listing := SendRequest(ListingRequest(c, domainName), transport);
      && (r.Failure? && r.error.ListingFailed? <==> listing.Failure?)
      && (r.Failure? && r.error.ListingFailed? ==> r.error.cause == listing.error)
      && (r == Failure(RecordNotFound(recordName, domainName)) <==>
            listing.Success? && HashIdIn(listing.value.records, recordName).None?)
      && (r.Success? ==> listing.Success? && HashIdIn(listing.value.records, recordName) == Some(r.value))
  {
    match SendRequest(ListingRequest(c, domainName), transport)
    case Failure(e) => Failure(ListingFailed(e))
    case Success(response) =>
      match HashIdIn(response.records, recordName)
      case None => Failure(RecordNotFound(recordName, domainName))
      case Some(hashId) => Success(hashId)
  }

  /** How `del_txt_record` ends. All but `Missing` are normal returns (the
      failure only logged); `Missing` is the RuntimeError of
      `_find_hash_id`, which is not a RequestException and escapes. */
  datatype DeleteOutcome =
    | Deleted
    | RequestWarning(cause: RequestError)
    | StatusWarning(status: nat)
    | Missing(recordName: string, domainName: string)

  /** `del_txt_record` once the name is split: look `record` up in the zone
      `domain`, then delete it by its hashId. */
  function DeleteRecord(c: Client, domain: string, record: string, transport: Transport)
    : (r: DeleteOutcome)
    ensures var lookup := FindHashId(c, domain, record, transport);
      && (r.Missing? <==> lookup == Failure(RecordNotFound(record, domain)))
      && (lookup.Failure? && lookup.error.ListingFailed? ==> r == RequestWarning(lookup.error.cause))
      && (r.Deleted? <==>
            && lookup.Success?
            && var reply := transport(DeleteRequest(c, domain, lookup.value));
               reply.Some? && reply.value.status == 204)
  {
    match FindHashId(c, domain, record, transport)
    case Failure(ListingFailed(e)) => RequestWarning(e)
    case Failure(RecordNotFound(name, zone)) => Missing(name, zone)
    case Success(hashId) =>
      match SendRequest(DeleteRequest(c, domain, hashId), transport)
      case Failure(e) => RequestWarning(e)
      case Success(response) =>
        if response.status != 204 then StatusWarning(response.status) else Deleted
  }

  /** `del_txt_record`: the name is split at its zone, then the record is
      looked up there and deleted. The content argument is not used. */
  function DelTxtRecord(c: Client, recordName: string, content: string, transport: Transport): (r: DeleteOutcome)
    ensures var parsed := ParseDomain(recordName);
      var lookup := FindHashId(c, parsed.0, parsed.1, transport);
      && (r.Missing? <==> lookup == Failure(RecordNotFound(parsed.1, parsed.0)))
      && (lookup.Failure? && lookup.error.ListingFailed? ==> r == RequestWarning(lookup.error.cause))
      && (r.Deleted? <==>
            && lookup.Success?
            && var reply := transport(DeleteRequest(c, parsed.0, lookup.value));
               reply.Some? && reply.value.status == 204)
  {
    var (domain, record) := ParseDomain(recordName);
    DeleteRecord(c, domain, record, transport)
  }

  /** Records are picked by name alone: two calls that differ only in the
      content delete the same record. */
  lemma DeleteIgnoresContent(c: Client, recordName: string, content: string, other: string, transport: Transport)
    ensures DelTxtRecord(c, recordName, content, transport) == DelTxtRecord(c, recordName, other, transport)
  {
  }

  /** A listing that holds the record once, and a DELETE of its hashId that
      returns 204, delete the record. */
  lemma DeleteFoundRecord(c: Client, recordName: string, content: string, hashId: string, transport: Transport)
    requires var (domain, record) := ParseDomain(recordName);
      && transport(ListingRequest(c, domain))
         == Some(HttpResponse(200, [ApiRecord(record, hashId)]))
      && transport(DeleteRequest(c, domain, hashId))
         == Some(HttpResponse(204, []))
    ensures DelTxtRecord(c, recordName, content, transport) == Deleted
  {
    var (domain, record) := ParseDomain(recordName);
    assert HashIdIn([ApiRecord(record, hashId)], record) == Some(hashId);
  }

  /** The client's example: listing the zone finds the challenge record and
      the DELETE of its hashId returns 204, for a record directly under the
      zone as well as under a subdomain. */
  lemma DeleteChallengeRecord(c: Client, record: string, zone: string, tld: string, content: string, transport: Transport)
    requires '.' !in zone && '.' !in tld
    requires transport(ListingRequest(c, zone + "." + tld))
             == Some(HttpResponse(200, [ApiRecord(record, "asdfqwert")]))
    requires transport(DeleteRequest(c, zone + "." + tld, "asdfqwert"))
             == Some(HttpResponse(204, []))
    ensures DelTxtRecord(c, record + "." + zone + "." + tld, content, transport) == Deleted
  {
    RecordInTwoLabelZone(record, zone, tld);
    DeleteFoundRecord(c, record + "." + zone + "." + tld, content, "asdfqwert", transport);
  }

  // ----- Waiting for the record -----

  /** A server's reply to the TXT query has an empty answer section. */
  predicate AnswerEmpty(reply: Option<Reply>)
  {
    reply.Some? && |reply.value.answer| == 0
  }

  /** One pass of `[ns for ns in nss if len(dns.query.udp(query, ns).answer) == 0]`:
      the servers still answering nothing, in their order; a raising query
      raises out of the pass. */
  function StillEmpty(nss: seq<string>, query: Query, udp: UdpOracle): (r: Result<seq<string>, DnsError>)
    ensures r.Success? ==> IsSubsequence(r.value, nss)
    ensures r.Success? ==> forall ns :: ns in nss ==> (ns in r.value <==> AnswerEmpty(udp(query, ns)))
    ensures r.Success? ==> forall ns ::
      multiset(r.value)[ns] == if AnswerEmpty(udp(query, ns)) then multiset(nss)[ns] else 0
    ensures r.Failure? <==> exists i :: 0 <= i < |nss| && udp(query, nss[i]).None?
    decreases |nss|
  {
    if |nss| == 0 then Success([])
    else
      SomeQueryRaises(nss, query, udp);
      match udp(query, nss[0])
      case None => Failure(QueryFailed(query, nss[0]))
      case Some(reply) =>
        match StillEmpty(nss[1..], query, udp)
        case Failure(e) => Failure(e)
        case Success(rest) =>
          FilterStep(nss, rest, query, udp);
          Success(if AnswerEmpty(udp(query, nss[0])) then [nss[0]] + rest else rest)
  }

  /** Some query of a non-empty list raises exactly when the first one does
      or some query of the rest does. */
  lemma SomeQueryRaises(nss: seq<string>, query: Query, udp: UdpOracle)
    requires |nss| > 0
    ensures (exists i :: 0 <= i < |nss| && udp(query, nss[i]).None?)
        <==> udp(query, nss[0]).None? || exists i :: 0 <= i < |nss[1..]| && udp(query, nss[1..][i]).None?
  {
    assert forall i :: 1 <= i < |nss| ==> nss[i] == nss[1..][i - 1];
  }

  /** Keeping or dropping the first server extends a filtered tail to a
      filtered list. */
  lemma FilterStep(nss: seq<string>, rest: seq<string>, query: Query, udp: UdpOracle)
    requires |nss| > 0
    requires IsSubsequence(rest, nss[1..])
    requires forall ns ::
      multiset(rest)[ns] == if AnswerEmpty(udp(query, ns)) then multiset(nss[1..])[ns] else 0
    ensures var r := if AnswerEmpty(udp(query, nss[0])) then [nss[0]] + rest else rest;
      && IsSubsequence(r, nss)
      && (forall ns :: ns in nss ==> (ns in r <==> AnswerEmpty(udp(query, ns))))
      && forall ns :: multiset(r)[ns] == if AnswerEmpty(udp(query, ns)) then multiset(nss)[ns] else 0
  {
    var r := if AnswerEmpty(udp(query, nss[0])) then [nss[0]] + rest else rest;
    assert nss == [nss[0]] + nss[1..];
    assert multiset(nss) == multiset([nss[0]]) + multiset(nss[1..]);
    if AnswerEmpty(udp(query, nss[0])) {
      assert r[1..] == rest;
    }
    forall ns | ns in nss ensures ns in r <==> AnswerEmpty(udp(query, ns)) {
      assert ns in r <==> multiset(r)[ns] > 0;
      assert multiset(nss)[ns] > 0;
    }
  }

  /** `ns` answered with an empty answer section in each of the first `n` passes. */
  predicate EmptyInEveryPass(udpAt: nat -> UdpOracle, query: Query, ns: string, n: nat)
  {
    forall j :: 0 <= j < n ==> AnswerEmpty(udpAt(j)(query, ns))
  }

  /** `_wait_for_propagation`, from the servers `nss0` found for the name.
      `udpAt(k)` answers the queries of the k-th pass; `fuel` bounds the
      number of passes, which the source does not bound. */
  method WaitForPropagation(validationName: string, nss0: seq<string>, udpAt: nat -> UdpOracle, fuel: nat)
    returns (r: Result<seq<string>, DnsError>, ghost passes: nat)
    ensures passes <= fuel
    ensures r.Success? ==> r.value == [] || passes == fuel
    ensures r.Success? ==> IsSubsequence(r.value, nss0)
    ensures r.Success? ==> forall ns :: ns in nss0 ==>
      (ns in r.value <==> EmptyInEveryPass(udpAt, Query(validationName, TXT), ns, passes))
    ensures r.Success? ==> forall ns ::
      multiset(r.value)[ns]
        == if EmptyInEveryPass(udpAt, Query(validationName, TXT), ns, passes) then multiset(nss0)[ns] else 0
    ensures r.Failure? ==> exists ns :: ns in nss0 && udpAt(passes)(Query(validationName, TXT), ns).None?
  {
    var query := Query(validationName, TXT);
    var nss := nss0;
    var pass: nat := 0;
    SubsequenceReflexive(nss0);
    while |nss| > 0 && pass < fuel
      invariant pass <= fuel
      decreases fuel - pass
      invariant IsSubsequence(nss, nss0)
      invariant forall ns :: ns in nss0 ==> (ns in nss <==> EmptyInEveryPass(udpAt, query, ns, pass))
      invariant forall ns ::
        multiset(nss)[ns] == if EmptyInEveryPass(udpAt, query, ns, pass) then multiset(nss0)[ns] else 0
    {
      var next := StillEmpty(nss, query, udpAt(pass));
      if next.Failure? {
        var i :| 0 <= i < |nss| && udpAt(pass)(query, nss[i]).None?;
        SubsequenceMembers(nss, nss0, nss[i]);
        return Failure(next.error), pass;
      }
      SubsequenceTransitive(next.value, nss, nss0);
      SubsequenceMembersAll(next.value, nss);
      forall ns
        ensures EmptyInEveryPass(udpAt, query, ns, pass + 1)
                <==> EmptyInEveryPass(udpAt, query, ns, pass) && AnswerEmpty(udpAt(pass)(query, ns))
      {
      }
      forall ns | ns in nss0
        ensures ns in next.value <==> EmptyInEveryPass(udpAt, query, ns, pass + 1)
      {
        if ns in next.value {
          assert ns in nss;
        }
      }
      nss := next.value;
      pass := pass + 1;
    }
    return Success(nss), pass;
  }
}
