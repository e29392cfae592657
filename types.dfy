/** The records exchanged with the mail server's DNS API and with the
    Cloudflare-shaped DNS provider, reduced to the fields the updater reads. */
module Types {

  datatype Option<+T> = None | Some(value: T)

  /** The record types the mail server reports. */
  datatype DNSRecordType = MX | TXT | SRV | CNAME | TLSA

  /** The wire spelling of a record type. */
  function TypeName(t: DNSRecordType): string
  {
    match t
    case MX => "MX"
    case TXT => "TXT"
    case SRV => "SRV"
    case CNAME => "CNAME"
    case TLSA => "TLSA"
  }

  /** A record of the authoritative source: exactly a type, a name and a content. */
  datatype DNSRecord = DNSRecord(recordType: DNSRecordType, name: string, content: string)

  /** The mail server's answer to a record listing. */
  datatype DNSResponse = DNSResponse(data: seq<DNSRecord>)

  /** A provider zone; the updater reads only its id. */
  datatype CloudflareZone = CloudflareZone(id: string, name: string)

  /** The provider's answer to a zone lookup by name. */
  datatype CloudflareZoneResponse = CloudflareZoneResponse(result: seq<CloudflareZone>)

  /** The structured data of a provider TLSA record. Its declaration
      documents usage 0..3, selector 0..1 and matching type 0..2; nothing in
      the updater reads or checks it. */
  datatype TlsaData = TlsaData(certificate: string, matchingType: int, selector: int, usage: int)

  /** A record held by the provider zone: any type, identified by its id. */
  datatype ZoneRecord = ZoneRecord(id: string, name: string, recordType: string, content: string)

  /** A provider record whose type is the literal TLSA. */
  type CloudflareTLSADNSRecord = r: ZoneRecord | r.recordType == "TLSA"
    witness ZoneRecord("", "", "TLSA", "")

  /** The provider's answer to a TLSA listing. */
  datatype CloudflareTLSADNSRecordResponse = CloudflareTLSADNSRecordResponse(result: seq<CloudflareTLSADNSRecord>)

  /** The `data` object of a create request: the first four whitespace-separated
      fields of the content, each absent (JavaScript `undefined`) when the
      content has fewer fields. */
  datatype PostedTlsaData = PostedTlsaData(
    usage: Option<string>,
    selector: Option<string>,
    matchingType: Option<string>,
    certificate: Option<string>)

  /** The body of a create request. */
  datatype CreateBody = CreateBody(recordType: string, name: string, data: PostedTlsaData, proxied: bool)

  /** Distinct types have distinct spellings, so comparing spellings is
      comparing types. */
  lemma TypeNameInjective(t: DNSRecordType, u: DNSRecordType)
    ensures TypeName(t) == TypeName(u) <==> t == u
  {
  }
}
