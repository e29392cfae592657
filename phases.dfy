/** What one phase does to the provider zone: the addition phase only
    appends TLSA records under canonical names and leaves every authoritative
    TLSA content published; the deletion phase removes exactly the TLSA records
    under a canonical name whose content is not authoritative. Also the calls
    a phase makes, one per created or deleted record. */
module Phases {
  import opened Types
  import opened Reconciler
  import opened Provider
  import opened Service

  /** The zone holds a TLSA record with this name and content. */
  predicate Publishes(zs: seq<ZoneRecord>, name: string, content: string)
  {
    exists x :: x in zs && x.recordType == "TLSA" && x.name == name && x.content == content
  }

  /** Every authoritative TLSA content is published under the canonical name
      of every hostname. */
  predicate Covered(zs: seq<ZoneRecord>, records: seq<DNSRecord>, hostnames: seq<string>)
  {
    forall h, t :: h in hostnames && t in records && t.recordType == TLSA ==>
      Publishes(zs, CanonicalName(h), t.content)
  }

  /** A TLSA record under the canonical name of one of the hostnames whose
      content is not among the authoritative contents. */
  predicate Unwanted(records: seq<DNSRecord>, hostnames: seq<string>, x: ZoneRecord)
  {
    x.recordType == "TLSA" && x.content !in Contents(records)
    && exists h :: h in hostnames && x.name == CanonicalName(h)
  }

  /** No record of the zone is unwanted. */
  predicate Clean(zs: seq<ZoneRecord>, records: seq<DNSRecord>, hostnames: seq<string>)
  {
    forall x :: x in zs ==> !Unwanted(records, hostnames, x)
  }

  /** The create calls appended to `log`, one per added record, in order. */
  lemma {:induction false} PostCallsShape(log: seq<ZoneCall>, zoneId: string, hostname: string, added: seq<DNSRecord>)
    ensures PostCalls(log, zoneId, hostname, added)[..|log|] == log
    ensures forall j :: 0 <= j < |added| ==>
      PostCalls(log, zoneId, hostname, added)[|log| + j] == PostCall(zoneId, PostBody(hostname, added[j].content))
  {
    if added != [] {
      var init := added[..|added| - 1];
      PostCallsShape(log, zoneId, hostname, init);
      assert forall j :: 0 <= j < |init| ==> added[j] == init[j];
    }
  }

  /** The delete calls appended to `log`, one per stale record, by its id, in order. */
  lemma {:induction false} DeleteCallsShape(log: seq<ZoneCall>, zoneId: string, stale: seq<CloudflareTLSADNSRecord>)
    ensures DeleteCalls(log, zoneId, stale)[..|log|] == log
    ensures forall i :: |log| <= i < |DeleteCalls(log, zoneId, stale)| ==>
      DeleteCalls(log, zoneId, stale)[i] == DeleteCall(zoneId, stale[i - |log|].id)
  {
    if stale != [] {
      var init := stale[..|stale| - 1];
      DeleteCallsShape(log, zoneId, init);
      assert forall j :: 0 <= j < |init| ==> stale[j] == init[j];
    }
  }

  /** Creating records appends one TLSA record per added record, with its name
      and content, after the unchanged zone. */
  lemma {:induction false} PostAllAppends(zs: seq<ZoneRecord>, added: seq<DNSRecord>)
    ensures |PostAll(zs, added)| == |zs| + |added|
    ensures PostAll(zs, added)[..|zs|] == zs
    ensures forall i :: |zs| <= i < |PostAll(zs, added)| ==>
      var x := PostAll(zs, added)[i];
      x.recordType == "TLSA" && x.name == added[i - |zs|].name && x.content == added[i - |zs|].content
  {
    if added != [] {
      var init := added[..|added| - 1];
      PostAllAppends(zs, init);
      var prev := PostAll(zs, init);
      var r := PostAll(zs, added);
      assert r[..|prev|] == prev;
      forall i | |zs| <= i < |r|
        ensures r[i].recordType == "TLSA" && r[i].name == added[i - |zs|].name && r[i].content == added[i - |zs|].content
      {
        if i < |prev| {
          assert r[i] == prev[i] && added[i - |zs|] == init[i - |zs|];
        }
      }
    }
  }

  /** Creating records keeps the ids of the zone distinct. */
  lemma {:induction false} PostAllDistinct(zs: seq<ZoneRecord>, added: seq<DNSRecord>)
    requires DistinctIds(zs)
    ensures DistinctIds(PostAll(zs, added))
  {
    if added != [] {
      var init := added[..|added| - 1];
      PostAllDistinct(zs, init);
      var prev := PostAll(zs, init);
      var r := PostAll(zs, added);
      forall i, j | 0 <= i < j < |r| ensures r[i].id != r[j].id {
        if j < |prev| {
          assert r[i] == prev[i] && r[j] == prev[j];
        } else {
          assert r[i] == prev[i] && prev[i] in prev;
        }
      }
    }
  }

  /** An authoritative record's content is among the authoritative contents. */
  lemma ContentOf(records: seq<DNSRecord>, t: DNSRecord)
    requires t in records
    ensures t.content in Contents(records)
  {
    var k :| 0 <= k < |records| && records[k] == t;
    assert Contents(records)[k] == t.content;
  }

  /** The records created for one hostname are TLSA records under its
      canonical name with authoritative contents. */
  lemma AddedRecords(zs: seq<ZoneRecord>, records: seq<DNSRecord>, hostname: string)
    ensures forall i :: |zs| <= i < |Created(zs, records, hostname)| ==>
      var x := Created(zs, records, hostname)[i];
      x.recordType == "TLSA" && x.name == CanonicalName(hostname) && x.content in Contents(records)
  {
    var existing := Listing(zs, CanonicalName(hostname));
    var added := Additions(records, existing, hostname);
    var r := PostAll(zs, added);
    PostAllAppends(zs, added);
    AdditionsShape(records, existing, hostname);
    forall i | |zs| <= i < |r|
      ensures r[i].recordType == "TLSA" && r[i].name == CanonicalName(hostname) && r[i].content in Contents(records)
    {
      var a := added[i - |zs|];
      assert a in added;
      var t :| t in records && t.recordType == TLSA && t.content == a.content;
      ContentOf(records, t);
    }
  }

  /** After the creations for one hostname, every authoritative TLSA content
      is published under its canonical name: listed before, or created. */
  lemma AddedCover(zs: seq<ZoneRecord>, records: seq<DNSRecord>, hostname: string)
    ensures Covered(Created(zs, records, hostname), records, [hostname])
  {
    var name := CanonicalName(hostname);
    var existing := Listing(zs, name);
    var added := Additions(records, existing, hostname);
    var r := PostAll(zs, added);
    PostAllAppends(zs, added);
    ListingMembership(zs, name);
    AddedComplete(TlsaRecords(records), existing, hostname);
    forall h, t | h in [hostname] && t in records && t.recordType == TLSA
      ensures Publishes(r, CanonicalName(h), t.content)
    {
      if IsListed(existing, name, t.content) {
        var e :| e in existing && e.content == t.content && e.name == name;
        assert e in r[..|zs|];
      } else {
        var a := DNSRecord(TLSA, name, t.content);
        assert a in added;
        var j :| 0 <= j < |added| && added[j] == a;
        assert r[|zs| + j] in r;
      }
    }
  }

  /** The addition phase for one hostname: it only appends, what it appends
      are TLSA records under the canonical name with authoritative contents,
      and afterwards every authoritative TLSA content is published under the
      canonical name. */
  lemma AdditionStep(zs: seq<ZoneRecord>, log: seq<ZoneCall>, zoneId: string, records: seq<DNSRecord>, hostname: string)
    requires DistinctIds(zs)
    ensures var o := Step(Addition, zs, log, zoneId, records, hostname);
      && DistinctIds(o.zone)
      && |o.zone| == |zs| + |o.out| && o.zone[..|zs|] == zs
      && (forall i :: |zs| <= i < |o.zone| ==>
            o.zone[i].recordType == "TLSA" && o.zone[i].name == CanonicalName(hostname)
            && o.zone[i].content in Contents(records))
      && Covered(o.zone, records, [hostname])
  {
    var added := Additions(records, Listing(zs, CanonicalName(hostname)), hostname);
    PostAllAppends(zs, added);
    PostAllDistinct(zs, added);
    AddedRecords(zs, records, hostname);
    AddedCover(zs, records, hostname);
  }

  /** The addition phase for one hostname lists once, then makes one create
      call per reported record, in order. */
  lemma AdditionCalls(zs: seq<ZoneRecord>, log: seq<ZoneCall>, zoneId: string, records: seq<DNSRecord>, hostname: string)
    ensures var o := Step(Addition, zs, log, zoneId, records, hostname);
      && |o.calls| == |log| + 1 + |o.out|
      && o.calls[..|log| + 1] == log + [ListCall(zoneId, CanonicalName(hostname))]
      && (forall j :: 0 <= j < |o.out| ==> o.calls[|log| + 1 + j] == PostCall(zoneId, PostBody(hostname, o.out[j].content)))
  {
    var added := Additions(records, Listing(zs, CanonicalName(hostname)), hostname);
    PostCallsShape(log + [ListCall(zoneId, CanonicalName(hostname))], zoneId, hostname, added);
  }

  /** Under the exact name filter of the listing, the name half of the
      deletion test never holds: a record listed for a hostname is stale
      exactly when its content is not authoritative. */
  lemma ListedStaleByContent(zs: seq<ZoneRecord>, records: seq<DNSRecord>, hostname: string)
    ensures forall e :: e in Listing(zs, CanonicalName(hostname)) ==>
      (IsStale(records, hostname, e) <==> e.content !in Contents(records))
  {
    ListingMembership(zs, CanonicalName(hostname));
  }

  /** The deletion phase for one hostname removes exactly the TLSA records
      under its canonical name whose content is not authoritative, wherever
      they are in the zone; every other record stays. */
  lemma DeletionStep(zs: seq<ZoneRecord>, records: seq<DNSRecord>, hostname: string)
    requires DistinctIds(zs)
    ensures DistinctIds(Pruned(zs, records, hostname))
    ensures forall x :: x in Pruned(zs, records, hostname) <==> x in zs && !Unwanted(records, [hostname], x)
  {
    var existing := Listing(zs, CanonicalName(hostname));
    var stale := Stale(records, existing, hostname);
    StaleMembership(records, existing, hostname);
    ListingMembership(zs, CanonicalName(hostname));
    RemoveAllExact(zs, stale);
    forall x ensures x in Pruned(zs, records, hostname) <==> x in zs && !Unwanted(records, [hostname], x) {
      if x in zs && !Unwanted(records, [hostname], x) {
        forall s | s in stale ensures s.id != x.id {
          if s.id == x.id {
            SameIdSameRecord(zs, s, x);
          }
        }
      }
      if x in zs && Unwanted(records, [hostname], x) {
        assert x in stale;
      }
    }
  }

  /** The deletion phase for one hostname lists once, then makes one delete
      call per reported record, by the id of the record it reports, in
      listing order. */
  lemma DeletionCalls(zs: seq<ZoneRecord>, log: seq<ZoneCall>, zoneId: string, records: seq<DNSRecord>, hostname: string)
    ensures var o := Step(Deletion, zs, log, zoneId, records, hostname);
      && var stale := Stale(records, Listing(zs, CanonicalName(hostname)), hostname);
      && |o.out| == |stale|
      && |o.calls| == |log| + 1 + |stale|
      && o.calls[..|log| + 1] == log + [ListCall(zoneId, CanonicalName(hostname))]
      && (forall j :: 0 <= j < |stale| ==> o.out[j] == AsDNSRecord(stale[j]))
      && (forall i :: |log| + 1 <= i < |o.calls| ==> o.calls[i] == DeleteCall(zoneId, stale[i - |log| - 1].id))
  {
    var stale := Stale(records, Listing(zs, CanonicalName(hostname)), hostname);
    var listed := log + [ListCall(zoneId, CanonicalName(hostname))];
    DeleteCallsShape(listed, zoneId, stale);
  }

  // ---------------------------------------------------------------------
  // A phase over all hostnames

  /** The listing calls of a phase that creates or deletes nothing: one per
      hostname, in order, after `log`. */
  function ListCalls(log: seq<ZoneCall>, zoneId: string, hostnames: seq<string>): (r: seq<ZoneCall>)
    ensures |r| == |log| + |hostnames|
    ensures forall i :: |log| <= i < |r| ==> r[i] == ListCall(zoneId, CanonicalName(hostnames[i - |log|]))
  {
    if hostnames == [] then log
    else
      var prev := ListCalls(log, zoneId, hostnames[..|hostnames| - 1]);
      assert forall j :: 0 <= j < |hostnames| - 1 ==> hostnames[..|hostnames| - 1][j] == hostnames[j];
      prev + [ListCall(zoneId, CanonicalName(hostnames[|hostnames| - 1]))]
  }

  /** A phase only appends to the call log. */
  lemma {:induction false} RunKeepsLog(phase: Phase, zs: seq<ZoneRecord>, log: seq<ZoneCall>, zoneId: string, records: seq<DNSRecord>, hostnames: seq<string>)
    ensures |Run(phase, zs, log, zoneId, records, hostnames).calls| >= |log|
    ensures Run(phase, zs, log, zoneId, records, hostnames).calls[..|log|] == log
  {
    if hostnames != [] {
      var init := hostnames[..|hostnames| - 1];
      var h := hostnames[|hostnames| - 1];
      RunKeepsLog(phase, zs, log, zoneId, records, init);
      var prev := Run(phase, zs, log, zoneId, records, init);
      var listed := prev.calls + [ListCall(zoneId, CanonicalName(h))];
      var o := Run(phase, zs, log, zoneId, records, hostnames);
      if phase == Addition {
        PostCallsShape(listed, zoneId, h, Additions(records, Listing(prev.zone, CanonicalName(h)), h));
      } else {
        DeleteCallsShape(listed, zoneId, Stale(records, Listing(prev.zone, CanonicalName(h)), h));
      }
      assert o.calls[..|prev.calls|] == listed[..|prev.calls|];
      assert o.calls[..|log|] == o.calls[..|prev.calls|][..|log|];
    }
  }

  /** The addition phase over all hostnames only appends, each appended record
      is a TLSA record with an authoritative content under the canonical name
      of one of the hostnames, and afterwards the zone is covered. */
  lemma {:induction false} AdditionRun(zs: seq<ZoneRecord>, log: seq<ZoneCall>, zoneId: string, records: seq<DNSRecord>, hostnames: seq<string>)
    requires DistinctIds(zs)
    ensures var o := Run(Addition, zs, log, zoneId, records, hostnames);
      && DistinctIds(o.zone)
      && |o.zone| == |zs| + |o.out| && o.zone[..|zs|] == zs
      && (forall i :: |zs| <= i < |o.zone| ==>
            o.zone[i].recordType == "TLSA" && o.zone[i].content in Contents(records)
            && exists h :: h in hostnames && o.zone[i].name == CanonicalName(h))
      && Covered(o.zone, records, hostnames)
  {
    if hostnames != [] {
      var init := hostnames[..|hostnames| - 1];
      var last := hostnames[|hostnames| - 1];
      AdditionRun(zs, log, zoneId, records, init);
      var prev := Run(Addition, zs, log, zoneId, records, init);
      AdditionStep(prev.zone, prev.calls, zoneId, records, last);
      var o := Run(Addition, zs, log, zoneId, records, hostnames);
      assert o.zone == Created(prev.zone, records, last);
      assert o.zone[..|zs|] == o.zone[..|prev.zone|][..|zs|];
      forall i | |zs| <= i < |o.zone|
        ensures o.zone[i].recordType == "TLSA" && o.zone[i].content in Contents(records)
          && exists h :: h in hostnames && o.zone[i].name == CanonicalName(h)
      {
        if i < |prev.zone| {
          assert o.zone[i] == o.zone[..|prev.zone|][i] == prev.zone[i];
          var h :| h in init && prev.zone[i].name == CanonicalName(h);
          assert h in hostnames;
        } else {
          assert last in hostnames;
        }
      }
      forall h, t | h in hostnames && t in records && t.recordType == TLSA
        ensures Publishes(o.zone, CanonicalName(h), t.content)
      {
        if h in init {
          var x :| x in prev.zone && x.recordType == "TLSA" && x.name == CanonicalName(h) && x.content == t.content;
          assert x in o.zone[..|prev.zone|];
        } else {
          assert h in [last];
        }
      }
    }
  }

  /** The deletion phase over all hostnames removes exactly the records that
      are unwanted for one of them, and nothing else. */
  lemma {:induction false} DeletionRun(zs: seq<ZoneRecord>, log: seq<ZoneCall>, zoneId: string, records: seq<DNSRecord>, hostnames: seq<string>)
    requires DistinctIds(zs)
    ensures var o := Run(Deletion, zs, log, zoneId, records, hostnames);
      && DistinctIds(o.zone)
      && forall x :: x in o.zone <==> x in zs && !Unwanted(records, hostnames, x)
  {
    if hostnames != [] {
      var init := hostnames[..|hostnames| - 1];
      var last := hostnames[|hostnames| - 1];
      DeletionRun(zs, log, zoneId, records, init);
      var prev := Run(Deletion, zs, log, zoneId, records, init);
      DeletionStep(prev.zone, records, last);
      assert forall h :: h in hostnames <==> h in init || h in [last];
    }
  }

  /** On a covered zone the addition phase creates nothing and only lists. */
  lemma {:induction false} AdditionFixpoint(zs: seq<ZoneRecord>, log: seq<ZoneCall>, zoneId: string, records: seq<DNSRecord>, hostnames: seq<string>)
    requires Covered(zs, records, hostnames)
    ensures var o := Run(Addition, zs, log, zoneId, records, hostnames);
      o.zone == zs && o.out == [] && o.calls == ListCalls(log, zoneId, hostnames)
  {
    if hostnames != [] {
      var init := hostnames[..|hostnames| - 1];
      var last := hostnames[|hostnames| - 1];
      assert Covered(zs, records, init) by {
        assert forall h :: h in init ==> h in hostnames;
      }
      AdditionFixpoint(zs, log, zoneId, records, init);
      var name := CanonicalName(last);
      var existing := Listing(zs, name);
      ListingMembership(zs, name);
      AdditionsEmptyIff(records, existing, last);
      forall r | r in records && r.recordType == TLSA ensures IsListed(existing, name, r.content) {
        assert Publishes(zs, name, r.content);
        var x :| x in zs && x.recordType == "TLSA" && x.name == name && x.content == r.content;
        assert x in existing;
      }
    }
  }

  /** On a clean zone the deletion phase deletes nothing and only lists. */
  lemma {:induction false} DeletionFixpoint(zs: seq<ZoneRecord>, log: seq<ZoneCall>, zoneId: string, records: seq<DNSRecord>, hostnames: seq<string>)
    requires Clean(zs, records, hostnames)
    ensures var o := Run(Deletion, zs, log, zoneId, records, hostnames);
      o.zone == zs && o.out == [] && o.calls == ListCalls(log, zoneId, hostnames)
  {
    if hostnames != [] {
      var init := hostnames[..|hostnames| - 1];
      var last := hostnames[|hostnames| - 1];
      assert Clean(zs, records, init) by {
        assert forall h :: h in init ==> h in hostnames;
      }
      DeletionFixpoint(zs, log, zoneId, records, init);
      var name := CanonicalName(last);
      var existing := Listing(zs, name);
      ListingMembership(zs, name);
      DeletionsEmptyIff(records, existing, last);
      forall e | e in existing ensures e.name == name && e.content in Contents(records) {
        assert last in hostnames;
        assert !Unwanted(records, hostnames, e);
      }
    }
  }
}
