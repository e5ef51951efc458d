/** The lookups of the REST API v2 client (`_find_service`, `_find_record`):
    first-match searches over the JSON lists the API returns. */
module ApiV2 {
  import opened Wrappers
  import opened Lookup

  /** An entry of the `items` list of `GET /v1/user/self/service`. */
  datatype Service = Service(serviceName: string, name: string, id: int)

  /** An entry of the `data` list of `GET /v2/service/<id>/dns/record`. */
  datatype DnsRecord = DnsRecord(recordType: string, name: string, content: string, id: int)

  predicate IsDomainService(s: Service, domainName: string)
  {
    s.serviceName == "domain" && s.name == domainName
  }

  predicate IsChallengeRecord(r: DnsRecord, recordName: string, recordContent: string)
  {
    r.recordType == "TXT" && r.name == recordName && r.content == recordContent
  }

  /** `_find_service`: the id of the first domain service named
      `domainName`, or none when there is no such service. */
  function FindService(items: seq<Service>, domainName: string): (r: Option<int>)
    ensures r.None? <==> forall i :: 0 <= i < |items| ==> !IsDomainService(items[i], domainName)
    ensures r.Some? ==>
      exists i :: && 0 <= i < |items| && IsDomainService(items[i], domainName) && items[i].id == r.value
                  && forall j :: 0 <= j < i ==> !IsDomainService(items[j], domainName)
  {
    match FirstMatch(items, s => IsDomainService(s, domainName))
    case None => None
    case Some(i) => Some(items[i].id)
  }

  /** `_find_record`: the first TXT record with the given name and content,
      or none when there is no such record. */
  function FindRecord(data: seq<DnsRecord>, recordName: string, recordContent: string): (r: Option<DnsRecord>)
    ensures r.None? <==> forall i :: 0 <= i < |data| ==> !IsChallengeRecord(data[i], recordName, recordContent)
    ensures r.Some? ==>
      exists i :: && 0 <= i < |data| && data[i] == r.value
                  && forall j :: 0 <= j < i ==> !IsChallengeRecord(data[j], recordName, recordContent)
    ensures r.Some? ==> IsChallengeRecord(r.value, recordName, recordContent)
  {
    match FirstMatch(data, d => IsChallengeRecord(d, recordName, recordContent))
    case None => None
    case Some(i) => Some(data[i])
  }
}
