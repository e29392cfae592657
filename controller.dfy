/** AppController of app.controller.ts: the health check and the event that
    fetches the authoritative records and the zone, runs the addition phase
    for every hostname and then the deletion phase, and reports both; with
    what one event does to the zone as a whole. */
module Controller {
  import opened Types
  import opened Reconciler
  import opened Provider
  import Service
  import opened Phases

  datatype Result<+T, +E> = Success(value: T) | Failure(error: E)

  /** The event's answer. */
  datatype EventResponse = EventResponse(
    message: string,
    dnsRecords: seq<DNSRecord>,
    addedTLSARecords: seq<DNSRecord>,
    deletedTLSARecords: seq<DNSRecord>)

  /** Reading the id of a zone lookup that found no zone: a `TypeError` when
      `event()` reads `zone.id`, answered as a server error. */
  datatype EventError = ZoneUndefined

  /** `GET /healthz`, answered by the service's health check. */
  function GetHealthz(): (r: string)
    ensures r == "OK"
  {
    Service.GetHealthz()
  }

  /** `POST /`: one reconciliation. `stalwart` is the mail server's answer to
      the record listing and `zones` the provider's answer to the zone lookup
      (each fetched once); `hostnamesSetting` is `STALWART_HOSTNAMES`. */
  method Event(zone: ExternalZone, stalwart: DNSResponse, zones: CloudflareZoneResponse, hostnamesSetting: string)
    returns (result: Result<EventResponse, EventError>)
    requires zone.Valid()
    modifies zone
    ensures zone.Valid()
    ensures |zones.result| == 0 ==>
      result == Failure(ZoneUndefined) && zone.records == old(zone.records) && zone.calls == old(zone.calls)
    ensures |zones.result| > 0 ==>
      var hostnames := Service.Hostnames(hostnamesSetting);
      var zoneId := zones.result[0].id;
      var a := Service.Run(Service.Addition, old(zone.records), old(zone.calls), zoneId, stalwart.data, hostnames);
      var d := Service.Run(Service.Deletion, a.zone, a.calls, zoneId, stalwart.data, hostnames);
      && result == Success(EventResponse("Event processed successfully", stalwart.data, a.out, d.out))
      && zone.records == d.zone && zone.calls == d.calls
    ensures |zones.result| > 0 ==>
      var hostnames := Service.Hostnames(hostnamesSetting);
      Covered(zone.records, stalwart.data, hostnames) && Clean(zone.records, stalwart.data, hostnames)
  {
    var dnsRecords := Service.GetDNSRecords(stalwart);
    var found := Service.GetZone(zones);
    if found.None? {
      return Failure(ZoneUndefined);
    }
    ghost var zs := zone.records;
    ghost var log := zone.calls;
    var zoneId := found.value.id;
    var addedTLSARecords := Service.AddAllTLSARecords(zone, zoneId, dnsRecords, hostnamesSetting);
    var deletedTLSARecords := Service.DeleteAllUnusedTLSARecords(zone, zoneId, dnsRecords, hostnamesSetting);
    result := Success(EventResponse("Event processed successfully", dnsRecords, addedTLSARecords, deletedTLSARecords));
    EventReconciles(zs, log, zoneId, dnsRecords, Service.Hostnames(hostnamesSetting));
  }

  /** After one event the zone keeps distinct ids, publishes every
      authoritative TLSA content under the canonical name of every hostname,
      and holds no unwanted record. A record the addition phase created is
      not deleted by the deletion phase that follows it; a record that was
      there before is deleted exactly when it is unwanted. The deletion
      phase's calls all come after the addition phase's. */
  lemma EventReconciles(zs: seq<ZoneRecord>, log: seq<ZoneCall>, zoneId: string, records: seq<DNSRecord>, hostnames: seq<string>)
    requires DistinctIds(zs)
    ensures var a := Service.Run(Service.Addition, zs, log, zoneId, records, hostnames);
      var d := Service.Run(Service.Deletion, a.zone, a.calls, zoneId, records, hostnames);
      && DistinctIds(d.zone)
      && Covered(d.zone, records, hostnames)
      && Clean(d.zone, records, hostnames)
      && (forall i :: |zs| <= i < |a.zone| ==> a.zone[i] in d.zone)
      && (forall x :: x in zs ==> (x in d.zone <==> !Unwanted(records, hostnames, x)))
      && |d.calls| >= |a.calls| && d.calls[..|a.calls|] == a.calls
  {
    var a := Service.Run(Service.Addition, zs, log, zoneId, records, hostnames);
    AdditionRun(zs, log, zoneId, records, hostnames);
    DeletionRun(a.zone, a.calls, zoneId, records, hostnames);
    RunKeepsLog(Service.Deletion, a.zone, a.calls, zoneId, records, hostnames);
    var d := Service.Run(Service.Deletion, a.zone, a.calls, zoneId, records, hostnames);
    forall i | |zs| <= i < |a.zone| ensures a.zone[i] in d.zone {
      assert a.zone[i] in a.zone;
    }
    forall h, t | h in hostnames && t in records && t.recordType == TLSA
      ensures Publishes(d.zone, CanonicalName(h), t.content)
    {
      var x :| x in a.zone && x.recordType == "TLSA" && x.name == CanonicalName(h) && x.content == t.content;
      ContentOf(records, t);
      assert x in d.zone;
    }
    forall x | x in zs ensures x in d.zone <==> !Unwanted(records, hostnames, x) {
      assert x in a.zone[..|zs|];
    }
  }

  /** A second event with the same inputs, right after the first, creates
      nothing, deletes nothing and only lists, once per hostname in each
      phase. */
  lemma SecondEventChangesNothing(zs: seq<ZoneRecord>, log: seq<ZoneCall>, zoneId: string, records: seq<DNSRecord>, hostnames: seq<string>)
    requires DistinctIds(zs)
    ensures var a := Service.Run(Service.Addition, zs, log, zoneId, records, hostnames);
      var d := Service.Run(Service.Deletion, a.zone, a.calls, zoneId, records, hostnames);
      var a2 := Service.Run(Service.Addition, d.zone, d.calls, zoneId, records, hostnames);
      var d2 := Service.Run(Service.Deletion, a2.zone, a2.calls, zoneId, records, hostnames);
      && a2.zone == d.zone && a2.out == [] && d2.zone == d.zone && d2.out == []
      && d2.calls == ListCalls(ListCalls(d.calls, zoneId, hostnames), zoneId, hostnames)
  {
    var a := Service.Run(Service.Addition, zs, log, zoneId, records, hostnames);
    var d := Service.Run(Service.Deletion, a.zone, a.calls, zoneId, records, hostnames);
    EventReconciles(zs, log, zoneId, records, hostnames);
    AdditionFixpoint(d.zone, d.calls, zoneId, records, hostnames);
    DeletionFixpoint(d.zone, ListCalls(d.calls, zoneId, hostnames), zoneId, records, hostnames);
  }
}
