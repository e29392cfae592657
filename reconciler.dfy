/** The pure part of the TLSA reconciliation in app.service.ts: which
    authoritative records are missing under the canonical name, which listed
    provider records are stale, and the request body posted for an addition. */
module Reconciler {
  import opened Types
  import opened Text

  /** The name under which the TLSA records of SMTP (port 25 over TCP) of
      `hostname` are published. */
  function CanonicalName(hostname: string): string
  {
    "_25._tcp." + hostname
  }

  /** Distinct hostnames have distinct canonical names. */
  lemma CanonicalNameInjective(a: string, b: string)
    ensures CanonicalName(a) == CanonicalName(b) <==> a == b
  {
    if CanonicalName(a) == CanonicalName(b) {
      assert a == CanonicalName(a)[9..];
      assert b == CanonicalName(b)[9..];
    }
  }

  /** The contents of `records`, in order (`records.map((r) => r.content)`). */
  function Contents(records: seq<DNSRecord>): (r: seq<string>)
    ensures |r| == |records|
    ensures forall i :: 0 <= i < |records| ==> r[i] == records[i].content
  {
    if records == [] then []
    else Contents(records[..|records| - 1]) + [records[|records| - 1].content]
  }

  /** The authoritative records of type TLSA, in order. */
  function TlsaRecords(records: seq<DNSRecord>): (r: seq<DNSRecord>)
    ensures forall x :: x in r <==> x in records && x.recordType == TLSA
    ensures |r| <= |records|
  {
    if records == [] then []
    else
      var last := records[|records| - 1];
      TlsaRecords(records[..|records| - 1]) + (if last.recordType == TLSA then [last] else [])
  }

  /** The filter is the comparison of the wire spelling with `'TLSA'`: it
      keeps exactly the records so spelled. */
  lemma TlsaRecordsBySpelling(records: seq<DNSRecord>)
    ensures forall x :: x in TlsaRecords(records) <==> x in records && TypeName(x.recordType) == "TLSA"
  {
    forall x: DNSRecord {
      TypeNameInjective(x.recordType, TLSA);
    }
  }

  /** The filter keeps every TLSA record as many times as it occurs, and
      drops every other record. */
  lemma {:induction false} TlsaRecordsCount(records: seq<DNSRecord>)
    ensures forall x :: multiset(TlsaRecords(records))[x] == if x.recordType == TLSA then multiset(records)[x] else 0
  {
    if records != [] {
      var init := records[..|records| - 1];
      TlsaRecordsCount(init);
      assert records == init + [records[|records| - 1]];
    }
  }

  /** The filter keeps the input order: filtering a concatenation is
      concatenating the filtered parts. */
  lemma {:induction false} TlsaRecordsConcat(a: seq<DNSRecord>, b: seq<DNSRecord>)
    ensures TlsaRecords(a + b) == TlsaRecords(a) + TlsaRecords(b)
  {
    if b == [] {
      assert a + b == a;
    } else {
      var init := b[..|b| - 1];
      var last := b[|b| - 1];
      var kept := if last.recordType == TLSA then [last] else [];
      TlsaRecordsConcat(a, init);
      assert (a + b)[..|a + b| - 1] == a + init;
      assert (a + b)[|a + b| - 1] == last;
      assert TlsaRecords(a + b) == TlsaRecords(a + init) + kept;
      assert TlsaRecords(b) == TlsaRecords(init) + kept;
      assert TlsaRecords(a) + TlsaRecords(init) + kept == TlsaRecords(a) + (TlsaRecords(init) + kept);
    }
  }

  /** The fields of a TLSA content: `content.trim().split(/\s+/)`. */
  function Fields(content: string): (r: seq<string>)
    ensures |r| >= 1
  {
    SplitWs(Trim(content))
  }

  /** Array destructuring: the `i`-th field, or `undefined` past the end. */
  function FieldAt(fs: seq<string>, i: nat): Option<string>
  {
    if i < |fs| then Some(fs[i]) else None
  }

  /** The create request posted for one authoritative TLSA content. */
  function PostBody(hostname: string, content: string): CreateBody
  {
    var fs := Fields(content);
    CreateBody("TLSA", CanonicalName(hostname),
      PostedTlsaData(FieldAt(fs, 0), FieldAt(fs, 1), FieldAt(fs, 2), FieldAt(fs, 3)),
      false)
  }

  /** The duplicate test: some listed record has exactly this name and content. */
  predicate IsListed(existing: seq<CloudflareTLSADNSRecord>, name: string, content: string)
  {
    exists e :: e in existing && e.content == content && e.name == name
  }

  /** The records the addition loop reports for the TLSA records `tlsa`,
      checked against the listing `existing` read before the loop. */
  function Added(tlsa: seq<DNSRecord>, existing: seq<CloudflareTLSADNSRecord>, hostname: string): seq<DNSRecord>
  {
    if tlsa == [] then []
    else
      var last := tlsa[|tlsa| - 1];
      var name := CanonicalName(hostname);
      Added(tlsa[..|tlsa| - 1], existing, hostname)
        + (if IsListed(existing, name, last.content) then [] else [DNSRecord(TLSA, name, last.content)])
  }

  /** What `addTLSARecords` adds for `hostname`. */
  function Additions(records: seq<DNSRecord>, existing: seq<CloudflareTLSADNSRecord>, hostname: string): seq<DNSRecord>
  {
    Added(TlsaRecords(records), existing, hostname)
  }

  /** The deletion test: the content is not among the contents of the
      authoritative records (of any type), or the name is not canonical. */
  predicate IsStale(records: seq<DNSRecord>, hostname: string, e: CloudflareTLSADNSRecord)
  {
    e.content !in Contents(records) || e.name != CanonicalName(hostname)
  }

  /** The listed records the deletion loop deletes, in listing order. */
  function Stale(records: seq<DNSRecord>, existing: seq<CloudflareTLSADNSRecord>, hostname: string): seq<CloudflareTLSADNSRecord>
  {
    if existing == [] then []
    else
      var last := existing[|existing| - 1];
      Stale(records, existing[..|existing| - 1], hostname)
        + (if IsStale(records, hostname, last) then [last] else [])
  }

  /** The entry reported for a deleted record: its name, type and content. */
  function AsDNSRecord(e: CloudflareTLSADNSRecord): DNSRecord
  {
    DNSRecord(TLSA, e.name, e.content)
  }

  /** The entries reported for deleted records, one per record, in order. */
  function Entries(es: seq<CloudflareTLSADNSRecord>): (r: seq<DNSRecord>)
    ensures |r| == |es|
    ensures forall i :: 0 <= i < |es| ==> r[i] == AsDNSRecord(es[i])
  {
    if es == [] then [] else Entries(es[..|es| - 1]) + [AsDNSRecord(es[|es| - 1])]
  }

  /** What `deleteUnusedTLSARecords` deletes for `hostname`. */
  function Deletions(records: seq<DNSRecord>, existing: seq<CloudflareTLSADNSRecord>, hostname: string): seq<DNSRecord>
  {
    Entries(Stale(records, existing, hostname))
  }

  // ---------------------------------------------------------------------
  // Additions

  /** Every added record is a TLSA record under the canonical name, carrying
      the raw content of some authoritative TLSA record (whose own name plays
      no part), and is not already listed under that name. */
  lemma {:induction false} AddedShape(tlsa: seq<DNSRecord>, existing: seq<CloudflareTLSADNSRecord>, hostname: string)
    ensures forall a :: a in Added(tlsa, existing, hostname) ==>
      a.recordType == TLSA && a.name == CanonicalName(hostname)
      && (exists t :: t in tlsa && t.content == a.content)
      && !IsListed(existing, a.name, a.content)
  {
    if tlsa != [] {
      var init := tlsa[..|tlsa| - 1];
      AddedShape(init, existing, hostname);
      forall a | a in Added(tlsa, existing, hostname)
        ensures exists t :: t in tlsa && t.content == a.content
      {
        if a in Added(init, existing, hostname) {
          var t :| t in init && t.content == a.content;
          assert t in tlsa;
        } else {
          assert tlsa[|tlsa| - 1] in tlsa;
        }
      }
    }
  }

  lemma AdditionsShape(records: seq<DNSRecord>, existing: seq<CloudflareTLSADNSRecord>, hostname: string)
    ensures forall a :: a in Additions(records, existing, hostname) ==>
      a.recordType == TLSA && a.name == CanonicalName(hostname)
      && (exists r :: r in records && r.recordType == TLSA && r.content == a.content)
      && !IsListed(existing, a.name, a.content)
  {
    AddedShape(TlsaRecords(records), existing, hostname);
  }

  /** Every authoritative TLSA content not listed under the canonical name is added. */
  lemma {:induction false} AddedComplete(tlsa: seq<DNSRecord>, existing: seq<CloudflareTLSADNSRecord>, hostname: string)
    ensures forall t :: t in tlsa && !IsListed(existing, CanonicalName(hostname), t.content) ==>
      DNSRecord(TLSA, CanonicalName(hostname), t.content) in Added(tlsa, existing, hostname)
  {
    if tlsa != [] {
      AddedComplete(tlsa[..|tlsa| - 1], existing, hostname);
      assert forall t :: t in tlsa ==> t in tlsa[..|tlsa| - 1] || t == tlsa[|tlsa| - 1];
    }
  }

  /** The addition phase for a hostname adds nothing exactly when every
      authoritative TLSA content is already listed under the canonical name. */
  lemma AdditionsEmptyIff(records: seq<DNSRecord>, existing: seq<CloudflareTLSADNSRecord>, hostname: string)
    ensures Additions(records, existing, hostname) == [] <==>
      forall r :: r in records && r.recordType == TLSA ==> IsListed(existing, CanonicalName(hostname), r.content)
  {
    AddedComplete(TlsaRecords(records), existing, hostname);
    AdditionsShape(records, existing, hostname);
    var added := Additions(records, existing, hostname);
    if added != [] {
      assert added[0] in added;
    }
  }

  /** Repeated contents are not merged: an unlisted content is added once per
      authoritative TLSA record carrying it, a listed one never. */
  lemma {:induction false} AddedMultiplicity(tlsa: seq<DNSRecord>, existing: seq<CloudflareTLSADNSRecord>, hostname: string, c: string)
    ensures multiset(Contents(Added(tlsa, existing, hostname)))[c] ==
      if IsListed(existing, CanonicalName(hostname), c) then 0 else multiset(Contents(tlsa))[c]
  {
    if tlsa != [] {
      var init := tlsa[..|tlsa| - 1];
      var last := tlsa[|tlsa| - 1];
      AddedMultiplicity(init, existing, hostname, c);
      assert tlsa[..|tlsa| - 1] == init;
      var a := Added(init, existing, hostname);
      if IsListed(existing, CanonicalName(hostname), last.content) {
        assert Added(tlsa, existing, hostname) == a;
      } else {
        var a' := a + [DNSRecord(TLSA, CanonicalName(hostname), last.content)];
        assert Added(tlsa, existing, hostname) == a';
        assert a'[..|a'| - 1] == a;
        assert Contents(a') == Contents(a) + [last.content];
      }
      assert Contents(tlsa) == Contents(init) + [last.content];
    }
  }

  lemma AdditionsMultiplicity(records: seq<DNSRecord>, existing: seq<CloudflareTLSADNSRecord>, hostname: string, c: string)
    ensures multiset(Contents(Additions(records, existing, hostname)))[c] ==
      if IsListed(existing, CanonicalName(hostname), c) then 0 else multiset(Contents(TlsaRecords(records)))[c]
  {
    AddedMultiplicity(TlsaRecords(records), existing, hostname, c);
  }

  /** Additions are made in the order of the TLSA records walked: the
      additions for a concatenation are those for each part, in turn. */
  lemma {:induction false} AddedConcat(a: seq<DNSRecord>, b: seq<DNSRecord>, existing: seq<CloudflareTLSADNSRecord>, hostname: string)
    ensures Added(a + b, existing, hostname) == Added(a, existing, hostname) + Added(b, existing, hostname)
  {
    if b == [] {
      assert a + b == a;
    } else {
      var init := b[..|b| - 1];
      var last := b[|b| - 1];
      var name := CanonicalName(hostname);
      var kept := if IsListed(existing, name, last.content) then [] else [DNSRecord(TLSA, name, last.content)];
      AddedConcat(a, init, existing, hostname);
      assert (a + b)[..|a + b| - 1] == a + init;
      assert (a + b)[|a + b| - 1] == last;
      assert Added(a + b, existing, hostname) == Added(a + init, existing, hostname) + kept;
      assert Added(b, existing, hostname) == Added(init, existing, hostname) + kept;
    }
  }

  /** The fields of a content are exactly the space-free words between the
      runs of white space, whatever white space surrounds them. */
  lemma FieldsOfRuns(fs: seq<string>, ws: seq<string>, pre: string, post: string)
    requires |fs| == |ws| + 1
    requires forall k :: 0 <= k < |fs| ==> fs[k] != [] && NoSpace(fs[k])
    requires forall k :: 0 <= k < |ws| ==> ws[k] != [] && AllSpace(ws[k])
    requires AllSpace(pre) && AllSpace(post)
    ensures Fields(pre + Interleave(fs, ws) + post) == fs
  {
    var s := Interleave(fs, ws);
    InterleaveEnds(fs, ws);
    assert s[0] == fs[0][0];
    assert s[|s| - 1] == fs[|fs| - 1][|fs[|fs| - 1]| - 1];
    TrimPadded(pre, s, post);
    SplitWsOfRuns(fs, ws);
  }

  /** A content of four nonempty fields separated by runs of white space
      (spaces, tabs, line breaks), with any white space around it, posts those
      four fields as usage, selector, matching type and certificate. */
  lemma PostBodyOfFourFields(hostname: string, fs: seq<string>, ws: seq<string>, pre: string, post: string)
    requires |fs| == 4 && |ws| == 3
    requires forall k :: 0 <= k < 4 ==> fs[k] != [] && NoSpace(fs[k])
    requires forall k :: 0 <= k < 3 ==> ws[k] != [] && AllSpace(ws[k])
    requires AllSpace(pre) && AllSpace(post)
    ensures PostBody(hostname, pre + Interleave(fs, ws) + post).data
      == PostedTlsaData(Some(fs[0]), Some(fs[1]), Some(fs[2]), Some(fs[3]))
  {
    FieldsOfRuns(fs, ws, pre, post);
  }

  /** Fields past the fourth are not posted. */
  lemma PostBodyOfLongContent(hostname: string, fs: seq<string>, ws: seq<string>, pre: string, post: string)
    requires |fs| > 4 && |fs| == |ws| + 1
    requires forall k :: 0 <= k < |fs| ==> fs[k] != [] && NoSpace(fs[k])
    requires forall k :: 0 <= k < |ws| ==> ws[k] != [] && AllSpace(ws[k])
    requires AllSpace(pre) && AllSpace(post)
    ensures PostBody(hostname, pre + Interleave(fs, ws) + post).data
      == PostedTlsaData(Some(fs[0]), Some(fs[1]), Some(fs[2]), Some(fs[3]))
  {
    FieldsOfRuns(fs, ws, pre, post);
  }

  /** A blank content is not skipped: it posts an empty usage and leaves the
      other three fields undefined. */
  lemma PostBodyOfBlank(hostname: string, content: string)
    requires AllSpace(content)
    ensures PostBody(hostname, content).data == PostedTlsaData(Some(""), None, None, None)
  {
    TrimPadded(content, "", "");
    assert content + "" + "" == content;
  }

  // ---------------------------------------------------------------------
  // Deletions

  /** A listed record is deleted exactly when it is stale, as often as it is
      listed, and nothing outside the listing is deleted. */
  lemma {:induction false} StaleExact(records: seq<DNSRecord>, existing: seq<CloudflareTLSADNSRecord>, hostname: string)
    ensures forall e :: multiset(Stale(records, existing, hostname))[e] ==
                        (if IsStale(records, hostname, e) then multiset(existing)[e] else 0)
  {
    if existing != [] {
      var init := existing[..|existing| - 1];
      StaleExact(records, init, hostname);
      assert existing == init + [existing[|existing| - 1]];
    }
  }

  lemma StaleMembership(records: seq<DNSRecord>, existing: seq<CloudflareTLSADNSRecord>, hostname: string)
    ensures forall e :: e in Stale(records, existing, hostname) <==>
      e in existing && (e.content !in Contents(records) || e.name != CanonicalName(hostname))
  {
    StaleExact(records, existing, hostname);
    forall e ensures e in Stale(records, existing, hostname) <==> e in existing && IsStale(records, hostname, e) {
      assert e in Stale(records, existing, hostname) <==> multiset(Stale(records, existing, hostname))[e] > 0;
      assert e in existing <==> multiset(existing)[e] > 0;
    }
  }

  /** Deletions follow the listing order: the stale records of a
      concatenated listing are those of each part, in turn. */
  lemma {:induction false} StaleConcat(records: seq<DNSRecord>, a: seq<CloudflareTLSADNSRecord>, b: seq<CloudflareTLSADNSRecord>, hostname: string)
    ensures Stale(records, a + b, hostname) == Stale(records, a, hostname) + Stale(records, b, hostname)
  {
    if b == [] {
      assert a + b == a;
    } else {
      var init := b[..|b| - 1];
      var last := b[|b| - 1];
      var kept := if IsStale(records, hostname, last) then [last] else [];
      StaleConcat(records, a, init, hostname);
      assert (a + b)[..|a + b| - 1] == a + init;
      assert (a + b)[|a + b| - 1] == last;
      assert Stale(records, a + b, hostname) == Stale(records, a + init, hostname) + kept;
      assert Stale(records, b, hostname) == Stale(records, init, hostname) + kept;
    }
  }

  /** The deletion phase for a hostname deletes nothing exactly when every
      listed record has the canonical name and an authoritative content. */
  lemma DeletionsEmptyIff(records: seq<DNSRecord>, existing: seq<CloudflareTLSADNSRecord>, hostname: string)
    ensures Deletions(records, existing, hostname) == [] <==>
      forall e :: e in existing ==> e.name == CanonicalName(hostname) && e.content in Contents(records)
  {
    StaleMembership(records, existing, hostname);
    var stale := Stale(records, existing, hostname);
    if stale != [] {
      assert stale[0] in stale;
    }
  }
}
