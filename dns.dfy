/** What the plugin sees of DNS: replies as dnspython hands them over, and
    the two library calls it makes, as oracles the caller supplies. */
module Dns {
  import opened Wrappers

  /** Response codes; only the two the code compares against are named. */
  type Rcode = nat
  const NOERROR: Rcode := 0
  const NXDOMAIN: Rcode := 3

  datatype RdType = A | NS | TXT | OtherType(code: nat)

  /** One resource record, with the fields the code reads: the address of an
      A record, the target of an NS record, the presentation text of a TXT
      record (quotes included, as `to_text()` renders it). */
  datatype Record =
    | ARecord(address: string)
    | NSRecord(target: string)
    | TXTRecord(text: string)
    | OtherRecord(code: nat, text: string)

  type Rrset = seq<Record>

  /** A reply: its rcode and its three record sections. */
  datatype Reply = Reply(rcode: Rcode, answer: seq<Rrset>, authority: seq<Rrset>, additional: seq<Rrset>)

  /** `dns.message.make_query(name, rdtype)`. */
  datatype Query = Query(name: string, qtype: RdType)

  /** `dns.query.udp(query, server)`; `None` when the call raises (a timeout,
      an undecodable reply). */
  type UdpOracle = (Query, string) -> Option<Reply>

  /** `default.resolve(name).rrset[0].to_text()`, the first address the
      system resolver gives for a name; `None` when the lookup raises. */
  type ResolveOracle = string -> Option<string>

  /** `rr.to_text()`. */
  function RecordText(rr: Record): string
  {
    match rr
    case ARecord(address) => address
    case NSRecord(target) => target
    case TXTRecord(text) => text
    case OtherRecord(_, text) => text
  }

  /** The DNSException and library errors the resolution can raise. */
  datatype DnsError =
    | DoesNotExist(name: string)           // NXDOMAIN: "<name> does not exist."
    | RcodeError(rcode: Rcode)             // any other non-NOERROR rcode
    | QueryFailed(query: Query, server: string)
    | ResolveFailed(name: string)
}
