/** AppService of app.service.ts: the addition and deletion loops for one
    hostname and for all configured hostnames, run against the provider zone,
    each proved against the pure description of its effect (Step and Run). */
module Service {
  import opened Types
  import opened Text
  import opened Reconciler
  import opened Provider

  /** The two phases of a reconciliation. */
  datatype Phase = Addition | Deletion

  /** The effect of a phase: the zone afterwards, the calls made (in order)
      and the records reported. */
  datatype Outcome = Outcome(zone: seq<ZoneRecord>, calls: seq<ZoneCall>, out: seq<DNSRecord>)

  /** The zone after creating the added records one after the other. */
  function PostAll(zs: seq<ZoneRecord>, added: seq<DNSRecord>): seq<ZoneRecord>
  {
    if added == [] then zs
    else
      var prev := PostAll(zs, added[..|added| - 1]);
      var a := added[|added| - 1];
      prev + [ZoneRecord(FreshId(prev), a.name, "TLSA", a.content)]
  }

  lemma PostAllSnoc(zs: seq<ZoneRecord>, added: seq<DNSRecord>, a: DNSRecord)
    ensures PostAll(zs, added + [a]) == PostAll(zs, added) + [ZoneRecord(FreshId(PostAll(zs, added)), a.name, "TLSA", a.content)]
  {
    assert (added + [a])[..|added|] == added;
  }

  /** The call log `log` followed by the create calls for the added records,
      one per record, in order. */
  function PostCalls(log: seq<ZoneCall>, zoneId: string, hostname: string, added: seq<DNSRecord>): (r: seq<ZoneCall>)
    ensures |r| == |log| + |added|
  {
    if added == [] then log
    else PostCalls(log, zoneId, hostname, added[..|added| - 1]) + [PostCall(zoneId, PostBody(hostname, added[|added| - 1].content))]
  }

  lemma PostCallsSnoc(log: seq<ZoneCall>, zoneId: string, hostname: string, added: seq<DNSRecord>, a: DNSRecord)
    ensures PostCalls(log, zoneId, hostname, added + [a]) == PostCalls(log, zoneId, hostname, added) + [PostCall(zoneId, PostBody(hostname, a.content))]
  {
    assert (added + [a])[..|added|] == added;
  }

  /** The zone after deleting the stale records one after the other, by id. */
  function RemoveAll(zs: seq<ZoneRecord>, stale: seq<CloudflareTLSADNSRecord>): seq<ZoneRecord>
  {
    if stale == [] then zs
    else WithoutId(RemoveAll(zs, stale[..|stale| - 1]), stale[|stale| - 1].id)
  }

  /** Deleting by id keeps exactly the records whose id is not deleted, and
      keeps ids distinct. */
  lemma {:induction false} RemoveAllExact(zs: seq<ZoneRecord>, stale: seq<CloudflareTLSADNSRecord>)
    ensures forall x :: x in RemoveAll(zs, stale) <==> x in zs && forall s :: s in stale ==> s.id != x.id
    ensures DistinctIds(zs) ==> DistinctIds(RemoveAll(zs, stale))
  {
    if stale != [] {
      var init := stale[..|stale| - 1];
      RemoveAllExact(zs, init);
      assert forall s :: s in stale <==> s in init || s == stale[|stale| - 1];
    }
  }

  /** The call log `log` followed by the delete calls for the stale records,
      one per record, in order. */
  function DeleteCalls(log: seq<ZoneCall>, zoneId: string, stale: seq<CloudflareTLSADNSRecord>): (r: seq<ZoneCall>)
    ensures |r| == |log| + |stale|
  {
    if stale == [] then log
    else DeleteCalls(log, zoneId, stale[..|stale| - 1]) + [DeleteCall(zoneId, stale[|stale| - 1].id)]
  }

  lemma DeletionSnoc(zs: seq<ZoneRecord>, log: seq<ZoneCall>, zoneId: string, stale: seq<CloudflareTLSADNSRecord>, e: CloudflareTLSADNSRecord)
    ensures RemoveAll(zs, stale + [e]) == WithoutId(RemoveAll(zs, stale), e.id)
    ensures DeleteCalls(log, zoneId, stale + [e]) == DeleteCalls(log, zoneId, stale) + [DeleteCall(zoneId, e.id)]
    ensures Entries(stale + [e]) == Entries(stale) + [AsDNSRecord(e)]
  {
    assert (stale + [e])[..|stale|] == stale;
  }

  /** The zone after the creations of the addition phase for `hostname`. */
  function Created(zs: seq<ZoneRecord>, records: seq<DNSRecord>, hostname: string): seq<ZoneRecord>
  {
    PostAll(zs, Additions(records, Listing(zs, CanonicalName(hostname)), hostname))
  }

  /** The zone after the deletions of the deletion phase for `hostname`. */
  function Pruned(zs: seq<ZoneRecord>, records: seq<DNSRecord>, hostname: string): seq<ZoneRecord>
  {
    RemoveAll(zs, Stale(records, Listing(zs, CanonicalName(hostname)), hostname))
  }

  /** One phase for one hostname, starting from the zone `zs` and the call
      log `log`: list the canonical name once, then create or delete. */
  function Step(phase: Phase, zs: seq<ZoneRecord>, log: seq<ZoneCall>, zoneId: string, records: seq<DNSRecord>, hostname: string): Outcome
  {
    var name := CanonicalName(hostname);
    var existing := Listing(zs, name);
    var listed := log + [ListCall(zoneId, name)];
    match phase
    case Addition =>
      var added := Additions(records, existing, hostname);
      Outcome(Created(zs, records, hostname), PostCalls(listed, zoneId, hostname, added), added)
    case Deletion =>
      var stale := Stale(records, existing, hostname);
      Outcome(Pruned(zs, records, hostname), DeleteCalls(listed, zoneId, stale), Entries(stale))
  }

  /** One phase for the hostnames in order, each step starting from the zone
      and the log the previous one left, the reports concatenated. */
  function Run(phase: Phase, zs: seq<ZoneRecord>, log: seq<ZoneCall>, zoneId: string, records: seq<DNSRecord>, hostnames: seq<string>): Outcome
  {
    if hostnames == [] then Outcome(zs, log, [])
    else
      var prev := Run(phase, zs, log, zoneId, records, hostnames[..|hostnames| - 1]);
      var step := Step(phase, prev.zone, prev.calls, zoneId, records, hostnames[|hostnames| - 1]);
      Outcome(step.zone, step.calls, prev.out + step.out)
  }

  /** The configured hostnames: `STALWART_HOSTNAMES.split(',')`, untrimmed. */
  function Hostnames(setting: string): (hs: seq<string>)
    ensures |hs| >= 1
  {
    Split(setting, ',')
  }

  /** The hostnames are the comma-free pieces of the setting: joined with
      commas they give the setting back. */
  lemma HostnamesJoin(setting: string)
    ensures Join(Hostnames(setting), ',') == setting
    ensures forall k :: 0 <= k < |Hostnames(setting)| ==> ',' !in Hostnames(setting)[k]
  {
    JoinOfSplit(setting, ',');
    SplitPieces(setting, ',');
  }

  /** Comma-free hostnames joined with commas are read back as themselves. */
  lemma HostnamesOfJoin(hs: seq<string>)
    requires |hs| >= 1
    requires forall k :: 0 <= k < |hs| ==> ',' !in hs[k]
    ensures Hostnames(Join(hs, ',')) == hs
  {
    SplitOfJoin(hs, ',');
  }

  // ---------------------------------------------------------------------
  // The service's operations

  function GetHealthz(): (r: string)
    ensures r == "OK"
  {
    "OK"
  }

  /** The records of the mail server's answer (`data.data`). */
  function GetDNSRecords(response: DNSResponse): (r: seq<DNSRecord>)
    ensures r == response.data
  {
    response.data
  }

  /** The first zone of the lookup answer (`zone.data.result[0]`), or
      `undefined` when the answer lists none. */
  function GetZone(response: CloudflareZoneResponse): (r: Option<CloudflareZone>)
    ensures r.Some? <==> |response.result| > 0
    ensures r.Some? ==> r.value == response.result[0]
  {
    if |response.result| > 0 then Some(response.result[0]) else None
  }

  /** Lists the TLSA records under the canonical name of `hostname`. */
  method GetCloudflareTLSARecords(zone: ExternalZone, zoneId: string, hostname: string)
    returns (existing: seq<CloudflareTLSADNSRecord>)
    modifies zone`calls
    ensures existing == Listing(zone.records, CanonicalName(hostname))
    ensures zone.calls == old(zone.calls) + [ListCall(zoneId, CanonicalName(hostname))]
  {
    var response := zone.List(zoneId, CanonicalName(hostname));
    existing := response.result;
  }

  /** Creates the authoritative TLSA records missing under the canonical name
      of `hostname` and reports them. */
  method AddTLSARecords(zone: ExternalZone, zoneId: string, records: seq<DNSRecord>, hostname: string)
    returns (addedRecords: seq<DNSRecord>)
    requires zone.Valid()
    modifies zone
    ensures zone.Valid()
    ensures addedRecords == Step(Addition, old(zone.records), old(zone.calls), zoneId, records, hostname).out
    ensures zone.records == Step(Addition, old(zone.records), old(zone.calls), zoneId, records, hostname).zone
    ensures zone.calls == Step(Addition, old(zone.records), old(zone.calls), zoneId, records, hostname).calls
  {
    ghost var zs := zone.records;
    addedRecords := [];
    var tlsaRecords := TlsaRecords(records);
    var existingTLSARecords := GetCloudflareTLSARecords(zone, zoneId, hostname);
    var name := CanonicalName(hostname);
    ghost var listed := zone.calls;
    for i := 0 to |tlsaRecords|
      invariant zone.Valid()
      invariant addedRecords == Added(tlsaRecords[..i], existingTLSARecords, hostname)
      invariant zone.records == PostAll(zs, addedRecords)
      invariant zone.calls == PostCalls(listed, zoneId, hostname, addedRecords)
    {
      var record := tlsaRecords[i];
      assert tlsaRecords[..i + 1][..i] == tlsaRecords[..i];
      if IsListed(existingTLSARecords, name, record.content) {
        continue;
      }
      var dnsData := PostBody(hostname, record.content);
      zone.Post(zoneId, dnsData, record.content);
      var entry := DNSRecord(TLSA, dnsData.name, record.content);
      PostAllSnoc(zs, addedRecords, entry);
      PostCallsSnoc(listed, zoneId, hostname, addedRecords, entry);
      addedRecords := addedRecords + [entry];
    }
    assert tlsaRecords[..|tlsaRecords|] == tlsaRecords;
    assert Step(Addition, zs, old(zone.calls), zoneId, records, hostname)
        == Outcome(PostAll(zs, addedRecords), PostCalls(listed, zoneId, hostname, addedRecords), addedRecords);
  }

  /** Deletes the listed records of `hostname` that are stale and reports them. */
  method DeleteUnusedTLSARecords(zone: ExternalZone, zoneId: string, records: seq<DNSRecord>, hostname: string)
    returns (deletedRecords: seq<DNSRecord>)
    requires zone.Valid()
    modifies zone
    ensures zone.Valid()
    ensures deletedRecords == Step(Deletion, old(zone.records), old(zone.calls), zoneId, records, hostname).out
    ensures zone.records == Step(Deletion, old(zone.records), old(zone.calls), zoneId, records, hostname).zone
    ensures zone.calls == Step(Deletion, old(zone.records), old(zone.calls), zoneId, records, hostname).calls
  {
    ghost var zs := zone.records;
    var existingTLSARecords := GetCloudflareTLSARecords(zone, zoneId, hostname);
    ghost var listed := zone.calls;
    ghost var stale: seq<CloudflareTLSADNSRecord> := [];
    deletedRecords := [];
    for i := 0 to |existingTLSARecords|
      invariant zone.Valid()
      invariant stale == Stale(records, existingTLSARecords[..i], hostname)
      invariant deletedRecords == Entries(stale)
      invariant zone.records == RemoveAll(zs, stale)
      invariant zone.calls == DeleteCalls(listed, zoneId, stale)
    {
      var existingRecord := existingTLSARecords[i];
      assert existingTLSARecords[..i + 1][..i] == existingTLSARecords[..i];
      if existingRecord.content !in Contents(records) || existingRecord.name != CanonicalName(hostname) {
        zone.Delete(zoneId, existingRecord.id);
        DeletionSnoc(zs, listed, zoneId, stale, existingRecord);
        stale := stale + [existingRecord];
        deletedRecords := deletedRecords + [AsDNSRecord(existingRecord)];
      }
    }
    assert existingTLSARecords[..|existingTLSARecords|] == existingTLSARecords;
    assert Step(Deletion, zs, old(zone.calls), zoneId, records, hostname)
        == Outcome(RemoveAll(zs, stale), DeleteCalls(listed, zoneId, stale), Entries(stale));
  }

  /** Runs the addition for every configured hostname, in order. */
  method AddAllTLSARecords(zone: ExternalZone, zoneId: string, records: seq<DNSRecord>, hostnamesSetting: string)
    returns (addedRecords: seq<DNSRecord>)
    requires zone.Valid()
    modifies zone
    ensures zone.Valid()
    ensures addedRecords == Run(Addition, old(zone.records), old(zone.calls), zoneId, records, Hostnames(hostnamesSetting)).out
    ensures zone.records == Run(Addition, old(zone.records), old(zone.calls), zoneId, records, Hostnames(hostnamesSetting)).zone
    ensures zone.calls == Run(Addition, old(zone.records), old(zone.calls), zoneId, records, Hostnames(hostnamesSetting)).calls
  {
    ghost var zs := zone.records;
    ghost var calls := zone.calls;
    var hostnames := Hostnames(hostnamesSetting);
    addedRecords := [];
    for i := 0 to |hostnames|
      invariant zone.Valid()
      invariant addedRecords == Run(Addition, zs, calls, zoneId, records, hostnames[..i]).out
      invariant zone.records == Run(Addition, zs, calls, zoneId, records, hostnames[..i]).zone
      invariant zone.calls == Run(Addition, zs, calls, zoneId, records, hostnames[..i]).calls
    {
      assert hostnames[..i + 1][..i] == hostnames[..i];
      var added := AddTLSARecords(zone, zoneId, records, hostnames[i]);
      addedRecords := addedRecords + added;
    }
    assert hostnames[..|hostnames|] == hostnames;
  }

  /** Runs the deletion for every configured hostname, in order. */
  method DeleteAllUnusedTLSARecords(zone: ExternalZone, zoneId: string, records: seq<DNSRecord>, hostnamesSetting: string)
    returns (deletedRecords: seq<DNSRecord>)
    requires zone.Valid()
    modifies zone
    ensures zone.Valid()
    ensures deletedRecords == Run(Deletion, old(zone.records), old(zone.calls), zoneId, records, Hostnames(hostnamesSetting)).out
    ensures zone.records == Run(Deletion, old(zone.records), old(zone.calls), zoneId, records, Hostnames(hostnamesSetting)).zone
    ensures zone.calls == Run(Deletion, old(zone.records), old(zone.calls), zoneId, records, Hostnames(hostnamesSetting)).calls
  {
    ghost var zs := zone.records;
    ghost var calls := zone.calls;
    deletedRecords := [];
    var hostnames := Hostnames(hostnamesSetting);
    for i := 0 to |hostnames|
      invariant zone.Valid()
      invariant deletedRecords == Run(Deletion, zs, calls, zoneId, records, hostnames[..i]).out
      invariant zone.records == Run(Deletion, zs, calls, zoneId, records, hostnames[..i]).zone
      invariant zone.calls == Run(Deletion, zs, calls, zoneId, records, hostnames[..i]).calls
    {
      assert hostnames[..i + 1][..i] == hostnames[..i];
      var deleted := DeleteUnusedTLSARecords(zone, zoneId, records, hostnames[i]);
      deletedRecords := deletedRecords + deleted;
    }
    assert hostnames[..|hostnames|] == hostnames;
  }
}
