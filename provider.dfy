/** The external DNS provider as the updater sees it: one zone of records
    that a TLSA listing reads, a create call extends and a delete call
    shrinks, together with the log of the calls made against it. */
module Provider {
  import opened Types

  /** One HTTP call the updater makes against the zone `zoneId`. */
  datatype ZoneCall =
    | ListCall(zoneId: string, name: string)
    | PostCall(zoneId: string, body: CreateBody)
    | DeleteCall(zoneId: string, recordId: string)

  /** No two records of the zone share an id. */
  predicate DistinctIds(zs: seq<ZoneRecord>)
  {
    forall i, j :: 0 <= i < j < |zs| ==> zs[i].id != zs[j].id
  }

  /** In a zone with distinct ids, a record is determined by its id. */
  lemma SameIdSameRecord(zs: seq<ZoneRecord>, x: ZoneRecord, y: ZoneRecord)
    requires DistinctIds(zs) && x in zs && y in zs && x.id == y.id
    ensures x == y
  {
    var i :| 0 <= i < |zs| && zs[i] == x;
    var j :| 0 <= j < |zs| && zs[j] == y;
  }

  /** The answer to `GET dns_records?type=TLSA&name=<name>`: the zone's TLSA
      records with exactly that name, in zone order. This is the model's
      assumption about the provider's server-side filter. */
  function Listing(zs: seq<ZoneRecord>, name: string): seq<CloudflareTLSADNSRecord>
  {
    if zs == [] then []
    else
      var last := zs[|zs| - 1];
      Listing(zs[..|zs| - 1], name) + (if last.recordType == "TLSA" && last.name == name then [last] else [])
  }

  /** The listing holds exactly the zone's TLSA records with that name. */
  lemma {:induction false} ListingMembership(zs: seq<ZoneRecord>, name: string)
    ensures forall x :: x in Listing(zs, name) <==> x in zs && x.recordType == "TLSA" && x.name == name
  {
    if zs != [] {
      var init := zs[..|zs| - 1];
      ListingMembership(init, name);
      assert zs == init + [zs[|zs| - 1]];
    }
  }

  /** The length of the longest id in the zone. */
  function LongestId(zs: seq<ZoneRecord>): (n: nat)
    ensures forall x :: x in zs ==> |x.id| <= n
  {
    if zs == [] then 0
    else
      var m := LongestId(zs[..|zs| - 1]);
      var k := |zs[|zs| - 1].id|;
      assert forall x :: x in zs ==> x in zs[..|zs| - 1] || x == zs[|zs| - 1];
      if k <= m then m else k
  }

  /** The id the provider gives a created record: one no record of the zone
      has (modelled as a string longer than every id in use). */
  function FreshId(zs: seq<ZoneRecord>): (id: string)
    ensures forall x :: x in zs ==> x.id != id
  {
    Padding(LongestId(zs) + 1)
  }

  /** A string of `n` characters. */
  function Padding(n: nat): (s: string)
    ensures |s| == n
  {
    if n == 0 then "" else Padding(n - 1) + "f"
  }

  /** The zone after `DELETE dns_records/<id>`: every record but those with that id. */
  function WithoutId(zs: seq<ZoneRecord>, id: string): (r: seq<ZoneRecord>)
    ensures forall x :: x in r <==> x in zs && x.id != id
    ensures DistinctIds(zs) ==> DistinctIds(r)
  {
    if zs == [] then []
    else
      var init := zs[..|zs| - 1];
      var last := zs[|zs| - 1];
      var p := WithoutId(init, id);
      assert DistinctIds(zs) ==> DistinctIds(init) by {
        if DistinctIds(zs) {
          forall i, j | 0 <= i < j < |init| ensures init[i].id != init[j].id {
            assert init[i] == zs[i] && init[j] == zs[j];
          }
        }
      }
      assert DistinctIds(zs) ==> forall x :: x in p ==> x.id != last.id by {
        if DistinctIds(zs) {
          forall x | x in p ensures x.id != last.id {
            var i :| 0 <= i < |init| && init[i] == x;
            assert zs[i] == x;
          }
        }
      }
      p + (if last.id != id then [last] else [])
  }

  /** The zone behind the provider's API, with the calls made against it. */
  class ExternalZone {
    var records: seq<ZoneRecord>
    var calls: seq<ZoneCall>

    ghost predicate Valid()
      reads this
    {
      DistinctIds(records)
    }

    constructor (records: seq<ZoneRecord>)
      requires DistinctIds(records)
      ensures Valid() && this.records == records && calls == []
    {
      this.records := records;
      calls := [];
    }

    /** `GET dns_records?type=TLSA&name=<name>`: reads the zone, changes nothing. */
    method List(zoneId: string, name: string) returns (response: CloudflareTLSADNSRecordResponse)
      modifies this`calls
      ensures response.result == Listing(records, name)
      ensures calls == old(calls) + [ListCall(zoneId, name)]
    {
      response := CloudflareTLSADNSRecordResponse(Listing(records, name));
      calls := calls + [ListCall(zoneId, name)];
    }

    /** `POST dns_records`: appends a record with a fresh id, the posted name
        and type, and `content` as the content the provider derives from the
        posted data. */
    method Post(zoneId: string, body: CreateBody, content: string)
      requires Valid()
      modifies this
      ensures Valid()
      ensures records == old(records) + [ZoneRecord(FreshId(old(records)), body.name, body.recordType, content)]
      ensures calls == old(calls) + [PostCall(zoneId, body)]
    {
      records := records + [ZoneRecord(FreshId(records), body.name, body.recordType, content)];
      calls := calls + [PostCall(zoneId, body)];
    }

    /** `DELETE dns_records/<id>`: removes the record with that id. */
    method Delete(zoneId: string, recordId: string)
      requires Valid()
      modifies this
      ensures Valid()
      ensures records == WithoutId(old(records), recordId)
      ensures calls == old(calls) + [DeleteCall(zoneId, recordId)]
    {
      records := WithoutId(records, recordId);
      calls := calls + [DeleteCall(zoneId, recordId)];
    }
  }
}
